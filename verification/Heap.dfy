/** The kernel heap: an address-sorted, coalescing free list and first-fit
    allocation, growing at the top when nothing fits.

    The first half works on the list as a sequence of blocks and on whole runs of
    allocations, frees and growths.  The second half is the list as the kernel keeps
    it, nodes linked through the free memory itself, proved to be that sequence. */
module Heap {
  import opened Options
  import opened Arith

  const NODE: nat := 16                          // size of a free-list node
  const BASE: nat := 0xFFFF_FF00_0000_0000       // where the heap window starts

  datatype Block = Block(addr: nat, size: nat)

  type FreeList = seq<Block>

  function End(b: Block): nat { b.addr + b.size }

  predicate Inside(b: Block, x: int) { b.addr <= x < End(b) }

  predicate Apart(b: Block, c: Block) { End(b) <= c.addr || End(c) <= b.addr }

  /** Address order, no two blocks overlapping or touching, none too small to hold a node. */
  ghost predicate Sorted(l: FreeList) {
    && (forall i :: 0 <= i < |l| ==> l[i].size >= 16 && l[i].addr > 0)
    && (forall i, j :: 0 <= i < j < |l| ==> End(l[i]) < l[j].addr)
  }

  ghost predicate ApartFromAll(l: FreeList, b: Block) { forall i :: 0 <= i < |l| ==> Apart(l[i], b) }

  ghost predicate Free(l: FreeList, x: int) { exists i :: 0 <= i < |l| && Inside(l[i], x) }

  function Total(l: FreeList): nat { if l == [] then 0 else Total(l[..|l| - 1]) + l[|l| - 1].size }

  // ----- Giving a region back ---------------------------------------------

  /** How many blocks lie below `a`: where the search loop stops. */
  function Below(l: FreeList, a: nat): (k: nat)
    ensures k <= |l| && (forall i :: 0 <= i < k ==> l[i].addr < a) && (k < |l| ==> l[k].addr >= a)
  {
    if l == [] || l[0].addr >= a then 0 else
    var k := Below(l[1..], a);
    assert forall i :: 1 <= i < k + 1 ==> l[i] == l[1..][i - 1];
    1 + k
  }

  /** `l` with blocks `i` up to `j` replaced by `b`. */
  function Splice(l: FreeList, i: nat, j: nat, b: Block): (r: FreeList)
    requires i <= j <= |l|
    ensures |r| == |l| - (j - i) + 1
  {
    l[..i] + [b] + l[j..]
  }

  /** The region ends where the block before it does, or the block after begins. */
  predicate JoinsLeft(l: FreeList, a: nat) { var k := Below(l, a); k > 0 && End(l[k - 1]) == a }
  predicate JoinsRight(l: FreeList, a: nat, n: nat) { var k := Below(l, a); k < |l| && a + n == l[k].addr }

  /** The block that freeing `[a, a+n)` leaves behind: the region, merged with the
      block before, the block after, both or neither. */
  function Merged(l: FreeList, a: nat, n: nat): Block {
    var k := Below(l, a);
    var low := if JoinsLeft(l, a) then l[k - 1] else Block(a, 0);
    var high := if JoinsRight(l, a, n) then l[k].size else 0;
    Block(low.addr, low.size + n + high)
  }

  /** The list after freeing `[a, a+n)`; regions too small for a node are dropped.  A node
      at address 0 becomes the head, and a head of 0 is an empty list. */
  function Insert(l: FreeList, a: nat, n: nat): FreeList {
    if n < NODE then l else
    if a == 0 then [] else
    var k := Below(l, a);
    var i := if JoinsLeft(l, a) then k - 1 else k;
    var j := if JoinsRight(l, a, n) then k + 1 else k;
    Splice(l, i, j, Merged(l, a, n))
  }

  lemma {:induction false} TotalConcat(a: FreeList, b: FreeList)
    ensures Total(a + b) == Total(a) + Total(b)
    decreases |b|
  {
    if b == [] {
      assert a + b == a;
    } else {
      assert (a + b)[..|a + b| - 1] == a + b[..|b| - 1];
      TotalConcat(a, b[..|b| - 1]);
    }
  }

  lemma TotalMiddle(a: FreeList, b: Block, c: FreeList)
    ensures Total(a + [b] + c) == Total(a) + b.size + Total(c)
  {
    hide Total;
    TotalConcat(a + [b], c);
    TotalConcat(a, [b]);
    TotalOne(b);
  }

  lemma SpliceTotal(l: FreeList, i: nat, j: nat, b: Block)
    requires i <= j <= |l|
    ensures Total(Splice(l, i, j, b)) == Total(l) - Total(l[i..j]) + b.size
  {
    hide Total;
    TotalMiddle(l[..i], b, l[j..]);
    TotalSplit(l, j);
    TotalSplit(l[..j], i);
    assert l[..j][..i] == l[..i] && l[..j][i..] == l[i..j];
  }

  lemma TotalSplit(l: FreeList, i: nat)
    requires i <= |l|
    ensures Total(l) == Total(l[..i]) + Total(l[i..])
  {
    hide Total;
    assert l == l[..i] + l[i..];
    TotalConcat(l[..i], l[i..]);
  }

  /** The address of block `i`, 0 past the end. */
  function AddrAt(l: FreeList, i: nat): nat { if i < |l| then l[i].addr else 0 }

  lemma SpliceAt(l: FreeList, i: nat, j: nat, b: Block, m: nat)
    requires i <= j <= |l| && m <= |l| - (j - i) + 1
    ensures AddrAt(Splice(l, i, j, b), m) == if m < i then AddrAt(l, m) else if m == i then b.addr else AddrAt(l, m - i - 1 + j)
    ensures m < |l| - (j - i) + 1 ==>
              Splice(l, i, j, b)[m] == if m < i then l[m] else if m == i then b else l[m - i - 1 + j]
  {
  }

  lemma SpliceSorted(l: FreeList, i: nat, j: nat, b: Block)
    requires i <= j <= |l| && Sorted(l) && b.size >= NODE && b.addr > 0
    requires i > 0 ==> End(l[i - 1]) < b.addr
    requires j < |l| ==> End(b) < l[j].addr
    ensures Sorted(Splice(l, i, j, b))
  {
    hide Splice;
    var l' := Splice(l, i, j, b);
    forall m, n | 0 <= m < n < |l'| ensures End(l'[m]) < l'[n].addr {
      SpliceAt(l, i, j, b, m);
      SpliceAt(l, i, j, b, n);
      if m + 1 < i <= n { assert End(l[m]) < l[i - 1].addr; }
      if n > i + 1 && m <= i { assert End(l[j]) < l[n - i - 1 + j].addr; }
    }
    forall m | 0 <= m < |l'| ensures l'[m].size >= NODE && l'[m].addr > 0 {
      SpliceAt(l, i, j, b, m);
    }
  }

  /** Free in the part of the list that a splice keeps. */
  ghost predicate FreeOutside(l: FreeList, i: nat, j: nat, x: int) {
    exists m :: 0 <= m < |l| && (m < i || j <= m) && Inside(l[m], x)
  }

  lemma SpliceFree(l: FreeList, i: nat, j: nat, b: Block, x: int)
    requires i <= j <= |l|
    ensures Free(Splice(l, i, j, b), x) <==> Inside(b, x) || FreeOutside(l, i, j, x)
  {
    var l' := Splice(l, i, j, b);
    assert l'[i] == b;
    assert forall m :: 0 <= m < i ==> l'[m] == l[m];
    assert forall m :: i < m < |l'| ==> l'[m] == l[m - i - 1 + j];
    if m :| 0 <= m < |l| && (m < i || j <= m) && Inside(l[m], x) {
      assert if m < i then Inside(l'[m], x) else l'[m + i + 1 - j] == l[m];
    }
    if m :| 0 <= m < |l'| && Inside(l'[m], x) {
      assert if m < i then Inside(l[m], x) else m == i || Inside(l[m - i - 1 + j], x);
    }
  }

  lemma TotalOne(a: Block)
    ensures Total([a]) == a.size
  {
    assert [a][..0] == [];
  }

  lemma TotalSmall(l: FreeList, i: nat, j: nat)
    requires i <= j <= |l| && j <= i + 2
    ensures Total(l[i..j]) == (if i < j then l[i].size else 0) + if i + 1 < j then l[i + 1].size else 0
  {
    if j == i + 1 {
      assert l[i..j] == [l[i]];
      TotalOne(l[i]);
    } else if j == i + 2 {
      assert l[i..j] == [l[i]] + [l[i + 1]];
      TotalConcat([l[i]], [l[i + 1]]);
      TotalOne(l[i]);
      TotalOne(l[i + 1]);
    }
  }

  /** Freed bytes join the free bytes, nothing is lost and nothing invented. */
  lemma InsertTotal(l: FreeList, a: nat, n: nat)
    requires n >= NODE && a > 0
    ensures Total(Insert(l, a, n)) == Total(l) + n
  {
    hide Splice, Below, Total;
    var k := Below(l, a);
    var i := if JoinsLeft(l, a) then k - 1 else k;
    var j := if JoinsRight(l, a, n) then k + 1 else k;
    SpliceTotal(l, i, j, Merged(l, a, n));
    TotalSmall(l, i, j);
  }

  /** The merged block reaches from the block before to the block after, short of both. */
  lemma MergedFits(l: FreeList, a: nat, n: nat)
    requires Sorted(l) && n >= NODE && ApartFromAll(l, Block(a, n))
    ensures var k, b := Below(l, a), Merged(l, a, n);
            && b.addr == (if JoinsLeft(l, a) then l[k - 1].addr else a)
            && End(b) == (if JoinsRight(l, a, n) then End(l[k]) else a + n)
            && (k > 0 ==> End(l[k - 1]) <= a)
            && (k < |l| ==> a + n <= l[k].addr)
  {
    var k := Below(l, a);
    if k > 0 { assert Apart(l[k - 1], Block(a, n)); }
    if k < |l| { assert Apart(l[k], Block(a, n)); }
  }

  lemma InsertSorted(l: FreeList, a: nat, n: nat)
    requires Sorted(l) && a > 0 && n >= NODE && ApartFromAll(l, Block(a, n))
    ensures Sorted(Insert(l, a, n))
  {
    hide Splice, Merged;
    var k := Below(l, a);
    MergedFits(l, a, n);
    var i := if JoinsLeft(l, a) then k - 1 else k;
    var j := if JoinsRight(l, a, n) then k + 1 else k;
    if i > 0 { assert End(l[i - 1]) < Merged(l, a, n).addr; }
    if j < |l| { assert End(Merged(l, a, n)) < l[j].addr; }
    SpliceSorted(l, i, j, Merged(l, a, n));
  }

  lemma FreeSplit(l: FreeList, i: nat, j: nat, x: int)
    requires i <= j <= |l| && j <= i + 2
    ensures Free(l, x) <==>
            FreeOutside(l, i, j, x) || (i < j && Inside(l[i], x)) || (i + 1 < j && Inside(l[i + 1], x))
  {
    if m :| 0 <= m < |l| && Inside(l[m], x) { assert m < i || j <= m || m == i || m == i + 1; }
  }

  lemma InsertFree(l: FreeList, a: nat, n: nat, x: int)
    requires Sorted(l) && a > 0 && n >= NODE && ApartFromAll(l, Block(a, n))
    ensures Free(Insert(l, a, n), x) <==> Free(l, x) || a <= x < a + n
  {
    hide Splice, Merged, Free, FreeOutside, Sorted, ApartFromAll;
    var k := Below(l, a);
    MergedFits(l, a, n);
    var i := if JoinsLeft(l, a) then k - 1 else k;
    var j := if JoinsRight(l, a, n) then k + 1 else k;
    SpliceFree(l, i, j, Merged(l, a, n), x);
    FreeSplit(l, i, j, x);
  }

  // ----- Taking a block ---------------------------------------------------

  function Add64(a: nat, b: nat): nat { (a + b) % WORD }

  function Sub64(a: nat, b: nat): nat { (a + (WORD - b % WORD)) % WORD }

  lemma Add64Is(a: nat, b: nat)
    ensures a + b < WORD ==> Add64(a, b) == a + b
    ensures WORD <= a + b < 2 * WORD ==> Add64(a, b) == a + b - WORD
  {
  }

  lemma Sub64Is(a: nat, b: nat)
    requires b <= a < WORD
    ensures Sub64(a, b) == a - b
  {
  }

  /** `(addr + align - 1) & !(align - 1)` in u64, for a power-of-two alignment. */
  function AlignUp(addr: nat, align: nat): (r: nat)
    requires align > 0
    ensures r < WORD
  {
    var x := (addr + align - 1) % WORD;
    RemainderBelow(x, align);
    x - x % align
  }

  lemma RemainderBelow(x: nat, d: nat)
    requires d > 0
    ensures x % d <= x
  {
  }

  /** The rounded address is above the address exactly when the sum stays below 2^64;
      at the very top of the address space it wraps to zero. */
  lemma AlignUpWraps(addr: nat, align: nat)
    requires 0 < addr < WORD && 0 < align < WORD
    ensures AlignUp(addr, align) >= addr <==> addr + align - 1 < WORD
    ensures addr + align - 1 >= WORD ==> AlignUp(addr, align) == 0
    ensures addr + align - 1 < WORD ==> addr <= AlignUp(addr, align) < addr + align && AlignUp(addr, align) % align == 0
  {
    var s := addr + align - 1;
    if s < WORD {
      DivIs(s, WORD, 0, s);
      RoundedDown(s, align);
    } else {
      DivIs(s, WORD, 1, s - WORD);
      DivIs(s - WORD, align, 0, s - WORD);
    }
  }

  lemma RoundedDown(x: nat, d: nat)
    requires d > 0
    ensures x - d < x - x % d <= x && (x - x % d) % d == 0
  {
    DivIs(x - x % d, d, x / d, 0);
  }

  predicate Fits(b: Block, size: nat, align: nat)
    requires align > 0
  {
    Add64(AlignUp(b.addr, align), size) <= Add64(b.addr, b.size)
  }

  /** Neither the rounded address nor the end of the allocation passes the top of the
      address space. */
  predicate NoWrap(b: Block, size: nat, align: nat)
    requires align > 0
  {
    b.addr + align - 1 < WORD && AlignUp(b.addr, align) + size < WORD
  }

  /** What the clamped sizes and alignments of valid layouts satisfy. */
  predicate Layout(size: nat, align: nat) { NODE <= size && 0 < align && size + align <= 0x8000_0000_0000_0018 }

  /** First fit; `|l|` when nothing fits. */
  function FirstFit(l: FreeList, size: nat, align: nat): (k: nat)
    requires align > 0
    ensures k <= |l| && (forall i :: 0 <= i < k ==> !Fits(l[i], size, align)) && (k < |l| ==> Fits(l[k], size, align))
  {
    if l == [] || Fits(l[0], size, align) then 0 else
    var k := FirstFit(l[1..], size, align);
    assert forall i :: 1 <= i < k + 1 ==> l[i] == l[1..][i - 1];
    1 + k
  }

  function Without<T>(l: seq<T>, k: nat): seq<T>
    requires k < |l|
  {
    l[..k] + l[k + 1..]
  }

  /** Block `k` unlinked, what lies before the allocation put back. */
  function FrontPut(l: FreeList, k: nat, start: nat): FreeList
    requires k < |l|
  {
    var front := Sub64(start, l[k].addr);
    if front > 0 then Insert(Without(l, k), l[k].addr, front) else Without(l, k)
  }

  /** Block `k` unlinked, what is left of it before and after the allocation put back. */
  function Carve(l: FreeList, k: nat, start: nat, size: nat): FreeList
    requires k < |l|
  {
    var l2, end := FrontPut(l, k, start), Add64(start, size);
    if Top(l[k]) > end then Insert(l2, end, Top(l[k]) - end) else l2
  }

  /** Where a block ends, as the code computes it. */
  function Top(b: Block): nat { Add64(b.addr, b.size) }

  /** Blocks in the heap's window, or with an end that wraps to below it. */
  ghost predicate InWindow(l: FreeList) {
    forall i :: 0 <= i < |l| ==> BASE <= l[i].addr && (End(l[i]) < WORD || Top(l[i]) < BASE)
  }

  lemma FitsMeans(b: Block, size: nat, align: nat)
    requires 0 < b.addr && 0 < align && End(b) < WORD && NoWrap(b, size, align)
    ensures b.addr <= AlignUp(b.addr, align) < b.addr + align && AlignUp(b.addr, align) % align == 0
    ensures Fits(b, size, align) <==> AlignUp(b.addr, align) + size <= End(b)
  {
    hide AlignUp, Add64;
    AlignUpWraps(b.addr, align);
    Add64Is(AlignUp(b.addr, align), size);
    Add64Is(b.addr, b.size);
  }

  /** A block for which an address wraps always seems to fit: the end of the allocation
      comes out far below the window. */
  lemma WrapSeemsToFit(b: Block, size: nat, align: nat)
    requires BASE <= b.addr && End(b) < WORD && Layout(size, align) && !NoWrap(b, size, align)
    ensures Fits(b, size, align) && Add64(AlignUp(b.addr, align), size) < 0x8000_0000_0000_0018
    ensures b.addr + align - 1 >= WORD ==> AlignUp(b.addr, align) == 0 && Add64(0, size) == size
  {
    hide AlignUp, Add64;
    AlignUpWraps(b.addr, align);
    Add64Is(AlignUp(b.addr, align), size);
    Add64Is(b.addr, b.size);
  }

  lemma WithoutTotal(l: FreeList, k: nat)
    requires k < |l|
    ensures Total(Without(l, k)) == Total(l) - l[k].size
  {
    hide Total;
    assert l == l[..k] + [l[k]] + l[k + 1..];
    TotalMiddle(l[..k], l[k], l[k + 1..]);
    TotalConcat(l[..k], l[k + 1..]);
  }

  lemma WithoutSorted(l: FreeList, k: nat, b: Block)
    requires Sorted(l) && k < |l| && b.addr >= l[k].addr && End(b) <= End(l[k])
    ensures Sorted(Without(l, k)) && ApartFromAll(Without(l, k), b)
  {
    var l1 := Without(l, k);
    forall i | 0 <= i < |l1| ensures l1[i] == l[if i < k then i else i + 1] { }
  }

  lemma WithoutFree(l: FreeList, k: nat, x: int)
    requires Sorted(l) && k < |l|
    ensures Free(Without(l, k), x) <==> Free(l, x) && !Inside(l[k], x)
  {
    hide Inside, Sorted;
    var l1 := Without(l, k);
    if i :| 0 <= i < |l1| && Inside(l1[i], x) {
      var j := if i < k then i else i + 1;
      assert l1[i] == l[j];
      SortedApart(l, j, k, x);
    }
    if Free(l, x) && !Inside(l[k], x) {
      var i :| 0 <= i < |l| && Inside(l[i], x);
      var j := if i < k then i else i - 1;
      assert l1[j] == l[i];
    }
  }

  lemma SortedApart(l: FreeList, i: nat, j: nat, x: int)
    requires Sorted(l) && i < |l| && j < |l| && i != j && Inside(l[i], x)
    ensures !Inside(l[j], x)
  {
  }

  /** Bytes of a leftover piece that is too small to keep. */
  function Sliver(n: nat): nat { if n < 16 then n else 0 }

  /** Putting a leftover piece back, or losing it. */
  lemma PutBack(l: FreeList, a: nat, n: nat)
    requires Sorted(l) && a > 0 && ApartFromAll(l, Block(a, n))
    ensures Sorted(Insert(l, a, n)) && Total(Insert(l, a, n)) == Total(l) + n - Sliver(n)
    ensures forall x :: Free(Insert(l, a, n), x) <==> Free(l, x) || (n >= NODE && a <= x < a + n)
  {
    hide Insert, Total, Free, Sorted, ApartFromAll;
    if n >= NODE {
      InsertSorted(l, a, n);
      InsertTotal(l, a, n);
      forall x ensures Free(Insert(l, a, n), x) <==> Free(l, x) || a <= x < a + n {
        InsertFree(l, a, n, x);
      }
    } else {
      InsertSmall(l, a, n);
    }
  }

  lemma InsertSmall(l: FreeList, a: nat, n: nat)
    requires n < NODE
    ensures Insert(l, a, n) == l
  {
  }

  /** A list whose free bytes avoid a region has blocks that avoid it. */
  lemma ApartFromFree(l: FreeList, b: Block)
    requires Sorted(l) && b.size > 0 && forall x :: Inside(b, x) ==> !Free(l, x)
    ensures ApartFromAll(l, b)
  {
    forall i | 0 <= i < |l| ensures Apart(l[i], b) {
      if !Apart(l[i], b) {
        var x := if l[i].addr >= b.addr then l[i].addr else b.addr;
        assert Inside(l[i], x) && Inside(b, x);
        assert Free(l, x);
      }
    }
  }

  lemma FrontKeeps(l: FreeList, k: nat, start: nat, l2: FreeList)
    requires Sorted(l) && k < |l| && l[k].addr <= start <= End(l[k]) < WORD && l2 == FrontPut(l, k, start)
    ensures Sorted(l2) && Total(l2) == Total(l) - l[k].size + (start - l[k].addr) - Sliver(start - l[k].addr)
    ensures forall x :: Free(l2, x) <==>
              (Free(l, x) && !Inside(l[k], x)) || (start - l[k].addr >= NODE && l[k].addr <= x < start)
  {
    hide Insert, Free, Without, Sorted, Total, Sub64;
    BlockFine(l, k);
    Sub64Is(start, l[k].addr);
    var l1, front := Without(l, k), start - l[k].addr;
    WithoutTotal(l, k);
    WithoutSorted(l, k, Block(l[k].addr, front));
    forall x ensures Free(l1, x) <==> Free(l, x) && !Inside(l[k], x) { WithoutFree(l, k, x); }
    if front > 0 { PutBack(l1, l[k].addr, front); }
  }

  /** What an allocation from block `k` leaves: a sorted list, fewer by the
      allocation and by the slivers, none of it in the allocation. */
  lemma CarveKeeps(l: FreeList, k: nat, start: nat, size: nat, l': FreeList)
    requires Sorted(l) && k < |l| && l[k].addr <= start && start + size <= End(l[k]) < WORD && l' == Carve(l, k, start, size)
    ensures Sorted(l')
    ensures Total(l') == Total(l) - size - Sliver(start - l[k].addr) - Sliver(End(l[k]) - (start + size))
    ensures forall x :: Free(l', x) ==> Free(l, x) && !(start <= x < start + size)
    ensures forall x :: Free(l, x) && !Inside(l[k], x) ==> Free(l', x)
  {
    hide Insert, Free, Without, Sorted, Total, FrontPut, Add64;
    Add64Is(start, size);
    Add64Is(l[k].addr, l[k].size);
    var l2, back := FrontPut(l, k, start), End(l[k]) - (start + size);
    BlockFine(l, k);
    FrontKeeps(l, k, start, l2);
    PieceIsFree(l, k);
    if back > 0 {
      ApartFromFree(l2, Block(start + size, back));
      PutBack(l2, start + size, back);
    }
  }

  lemma BlockFine(l: FreeList, k: nat)
    requires Sorted(l) && k < |l|
    ensures l[k].addr > 0 && l[k].size >= NODE
  {
  }

  lemma PieceIsFree(l: FreeList, k: nat)
    requires k < |l|
    ensures forall x :: Inside(l[k], x) ==> Free(l, x)
  {
  }

  // ----- Whole runs -------------------------------------------------------

  /** The heap together with what its callers hold, and the alignment each of them asked
      for.  `lost` counts bytes in slivers too small to track. */
  datatype State = State(free: FreeList, live: seq<Block>, aligns: seq<nat>, end: nat, lost: nat)

  const Start: State := State([], [], [], BASE, 0)

  function Max(a: nat, b: nat): nat { if a >= b then a else b }

  /** How far the heap grows when nothing fits. */
  function GrowthPages(size: nat, align: nat): nat { Max((size + align + 4096 + 4095) / 4096, 256) }

  function Grown(s: State, pages: nat): State {
    s.(free := Insert(s.free, s.end, pages * 4096), end := Add64(s.end, pages * 4096))
  }

  /** Serving the request from block `k`.  An address of 0 is null to the caller. */
  function Taken(s: State, k: nat, size: nat, align: nat): State
    requires k < |s.free| && align > 0
  {
    var b, start := s.free[k], AlignUp(s.free[k].addr, align);
    var back := if Top(b) > Add64(start, size) then Top(b) - Add64(start, size) else 0;
    State(Carve(s.free, k, start, size),
          if start == 0 then s.live else s.live + [Block(start, size)],
          if start == 0 then s.aligns else s.aligns + [align],
          s.end, s.lost + Sliver(Sub64(start, b.addr)) + Sliver(back))
  }

  /** `alloc` of an already clamped layout.  `granted`: the page allocator can supply
      the growth.  Second component: the address, 0 for null. */
  function Alloc(s: State, size: nat, align: nat, granted: bool): (State, nat)
    requires align > 0
  {
    var k := FirstFit(s.free, size, align);
    if k < |s.free| then (Taken(s, k, size, align), AlignUp(s.free[k].addr, align)) else
    if !granted then (s, 0) else
    var s1 := Grown(s, GrowthPages(size, align));
    var k1 := FirstFit(s1.free, size, align);
    if k1 < |s1.free| then (Taken(s1, k1, size, align), AlignUp(s1.free[k1].addr, align)) else (s1, 0)
  }

  /** `dealloc` of the `i`-th live allocation. */
  function Dealloc(s: State, i: nat): State
    requires i < |s.live|
  {
    s.(free := Insert(s.free, s.live[i].addr, s.live[i].size), live := Without(s.live, i),
       aligns := if i < |s.aligns| then Without(s.aligns, i) else s.aligns)
  }

  ghost predicate Within(l: seq<Block>, lo: nat, hi: nat) {
    forall i :: 0 <= i < |l| ==> lo <= l[i].addr && End(l[i]) <= hi && l[i].size >= 16
  }

  ghost predicate Disjoint(l: seq<Block>) { forall i, j :: 0 <= i < j < |l| ==> Apart(l[i], l[j]) }

  ghost predicate LiveNotFree(s: State) { forall i :: 0 <= i < |s.live| ==> ApartFromAll(s.free, s.live[i]) }

  /** Every live block is aligned as it was asked to be. */
  ghost predicate AlignedLive(s: State) {
    |s.aligns| == |s.live| && forall i :: 0 <= i < |s.live| ==> s.aligns[i] > 0 && s.live[i].addr % s.aligns[i] == 0
  }

  ghost predicate HeapInv(s: State) {
    && BASE <= s.end < WORD && AlignedLive(s)
    && Sorted(s.free) && Within(s.free, BASE, s.end)
    && Within(s.live, BASE, s.end) && Disjoint(s.live) && LiveNotFree(s)
    && Total(s.free) + Total(s.live) + s.lost == s.end - BASE
  }

  lemma FreeInside(l: FreeList, b: Block)
    requires Sorted(l) && b.size > 0 && ApartFromAll(l, b)
    ensures forall x :: Inside(b, x) ==> !Free(l, x)
  {
    forall x | Inside(b, x) ensures !Free(l, x) {
      forall i | 0 <= i < |l| ensures !Inside(l[i], x) {
        assert Apart(l[i], b);
      }
    }
  }

  /** Blocks of a list all of whose free bytes come from an older list stay in range. */
  lemma WithinStays(l: FreeList, l': FreeList, lo: nat, hi: nat)
    requires Sorted(l') && Within(l, lo, hi)
    requires forall x :: Free(l', x) ==> Free(l, x)
    ensures Within(l', lo, hi)
  {
    forall i | 0 <= i < |l'| ensures lo <= l'[i].addr && End(l'[i]) <= hi && l'[i].size >= NODE {
      var x, y := l'[i].addr, End(l'[i]) - 1;
      assert Inside(l'[i], x) && Inside(l'[i], y);
      assert Free(l', x) && Free(l', y);
      var j :| 0 <= j < |l| && Inside(l[j], x);
      var k :| 0 <= k < |l| && Inside(l[k], y);
    }
  }

  lemma TakenIs(s: State, k: nat, size: nat, align: nat, start: nat)
    requires k < |s.free| && align > 0 && start == AlignUp(s.free[k].addr, align)
    requires 0 < s.free[k].addr <= start && start + size <= End(s.free[k]) < WORD
    ensures Taken(s, k, size, align) ==
            State(Carve(s.free, k, start, size), s.live + [Block(start, size)], s.aligns + [align], s.end,
                  s.lost + Sliver(start - s.free[k].addr) + Sliver(End(s.free[k]) - (start + size)))
  {
    hide Carve, AlignUp, Add64, Sub64;
    Add64Is(start, size);
    Add64Is(s.free[k].addr, s.free[k].size);
    Sub64Is(start, s.free[k].addr);
  }

  lemma TakenKeeps(s: State, k: nat, size: nat, align: nat, s': State)
    requires HeapInv(s) && k < |s.free| && align > 0 && size >= NODE && NoWrap(s.free[k], size, align)
    requires Fits(s.free[k], size, align) && s' == Taken(s, k, size, align)
    ensures HeapInv(s') && s'.end == s.end && s.lost <= s'.lost <= s.lost + 30
    ensures s'.live == s.live + [Block(AlignUp(s.free[k].addr, align), size)] && AlignUp(s.free[k].addr, align) % align == 0
    ensures s'.aligns == s.aligns + [align]
    ensures s.free[k].addr <= AlignUp(s.free[k].addr, align)
  {
    hide Carve, Free, AlignUp, Fits, Sorted, Total, NoWrap, Taken;
    var b, start := s.free[k], AlignUp(s.free[k].addr, align);
    BlockFine(s.free, k);
    assert End(b) <= s.end;
    FitsMeans(b, size, align);
    TakenIs(s, k, size, align, start);
    var a := Block(start, size);
    CarveKeeps(s.free, k, start, size, s'.free);
    WithinStays(s.free, s'.free, BASE, s.end);
    TotalConcat(s.live, [a]);
    TotalOne(a);
    PieceIsFree(s.free, k);
    forall i | 0 <= i < |s.live| ensures ApartFromAll(s'.free, s.live[i]) && Apart(s.live[i], a) {
      FreeInside(s.free, s.live[i]);
      ApartFromFree(s'.free, s.live[i]);
      assert ApartFromAll(s.free, s.live[i]);
      assert Apart(b, s.live[i]);
    }
    ApartFromFree(s'.free, a);
  }

  lemma GrownKeeps(s: State, pages: nat, s': State)
    requires HeapInv(s) && s' == Grown(s, pages) && s.end + pages * 4096 < WORD
    ensures HeapInv(s') && s'.live == s.live && s'.aligns == s.aligns && s'.lost == s.lost && s'.end == s.end + pages * 4096
    ensures forall x :: Free(s'.free, x) <==> Free(s.free, x) || s.end <= x < s.end + pages * 4096
  {
    hide Insert, Free, Total, Add64;
    Add64Is(s.end, pages * 4096);
    var b := Block(s.end, pages * 4096);
    assert ApartFromAll(s.free, b);
    PutBack(s.free, s.end, pages * 4096);
    if pages == 0 { InsertSmall(s.free, s.end, 0); }
    GrownWithin(s, b, s'.free);
    forall i | 0 <= i < |s.live| ensures ApartFromAll(s'.free, s.live[i]) {
      assert ApartFromAll(s.free, s.live[i]);
      FreeInside(s.free, s.live[i]);
      ApartFromFree(s'.free, s.live[i]);
    }
  }

  lemma GrownWithin(s: State, b: Block, l': FreeList)
    requires Sorted(l') && Within(s.free, BASE, s.end) && b.addr == s.end && BASE <= s.end
    requires forall x :: Free(l', x) <==> Free(s.free, x) || Inside(b, x)
    ensures Within(l', BASE, End(b))
  {
    forall i | 0 <= i < |l'| ensures BASE <= l'[i].addr && End(l'[i]) <= End(b) && l'[i].size >= NODE {
      var x, y := l'[i].addr, End(l'[i]) - 1;
      assert Inside(l'[i], x) && Inside(l'[i], y);
      assert Free(l', x) && Free(l', y);
    }
  }

  /** Growth is enough: a list whose bytes include a fresh top region of that many
      pages has a block that fits, also when the region joined the block below it; and
      nothing wraps for the block that is served. */
  lemma GrowthFits(s: State, size: nat, align: nat, s': State)
    requires HeapInv(s) && align > 0 && s' == Grown(s, GrowthPages(size, align))
    requires s.end + GrowthPages(size, align) * 4096 < WORD
    ensures var k := FirstFit(s'.free, size, align); k < |s'.free| && NoWrap(s'.free[k], size, align)
  {
    hide Insert, Total, AlignUp, Fits, FirstFit, NoWrap, Grown;
    var n := GrowthPages(size, align) * 4096;
    GrownKeeps(s, GrowthPages(size, align), s');
    assert n >= size + align;
    TopBlock(s.free, s'.free, s.end, n);
    var i :| 0 <= i < |s'.free| && s'.free[i].addr <= s.end && End(s'.free[i]) == s.end + n;
    LowBlockDoesNotWrap(s'.free[i], s.end, size, align);
    FitsMeans(s'.free[i], size, align);
    assert Fits(s'.free[i], size, align);
    var k := FirstFit(s'.free, size, align);
    if k < i { Order(s'.free, k, i); }
    LowBlockDoesNotWrap(s'.free[k], s.end, size, align);
  }

  lemma LowBlockDoesNotWrap(b: Block, top: nat, size: nat, align: nat)
    requires 0 < b.addr <= top && align > 0 && top + size + align < WORD
    ensures NoWrap(b, size, align)
  {
    hide AlignUp;
    AlignUpWraps(b.addr, align);
  }

  lemma TopBlock(l: FreeList, l': FreeList, end: nat, n: nat)
    requires Sorted(l') && n > 0 && Within(l', BASE, end + n)
    requires forall x :: Free(l', x) <==> Free(l, x) || end <= x < end + n
    ensures exists i :: 0 <= i < |l'| && l'[i].addr <= end && End(l'[i]) == end + n
  {
    assert Free(l', end);
    var i :| 0 <= i < |l'| && Inside(l'[i], end);
    var y := End(l'[i]);
    forall j | 0 <= j < |l'| ensures !Inside(l'[j], y) {
      assert i < j ==> y < l'[j].addr;
    }
    assert !Free(l', y);
  }

  /** No address wraps for the block that is served, nor for the growth if one is needed. */
  predicate AllocSafe(s: State, size: nat, align: nat, granted: bool)
    requires align > 0
  {
    var k := FirstFit(s.free, size, align);
    if k < |s.free| then NoWrap(s.free[k], size, align)
    else granted ==> s.end + GrowthPages(size, align) * 4096 < WORD
  }

  /** `alloc`, whenever no address wraps: it serves the lowest block that fits; it returns
      null exactly when nothing fits and the growth is refused; the result is aligned,
      disjoint from everything live and free, and costs at most 30 bytes of slivers. */
  lemma AllocKeeps(s: State, size: nat, align: nat, granted: bool, s': State, addr: nat)
    requires HeapInv(s) && align > 0 && size >= NODE && AllocSafe(s, size, align, granted)
    requires (s', addr) == Alloc(s, size, align, granted)
    ensures HeapInv(s') && s.lost <= s'.lost <= s.lost + 30
    ensures addr == 0 <==> FirstFit(s.free, size, align) == |s.free| && !granted
    ensures addr == 0 ==> s' == s
    ensures addr != 0 ==> addr % align == 0 && s'.live == s.live + [Block(addr, size)] && s'.aligns == s.aligns + [align]
  {
    hide FirstFit, Taken, Grown, Fits, AlignUp, HeapInv, NoWrap;
    var k := FirstFit(s.free, size, align);
    HasWindow(s);
    if k < |s.free| {
      TakenKeeps(s, k, size, align, s');
      BlockIn(s, k);
    } else if granted {
      var s1 := Grown(s, GrowthPages(size, align));
      GrownKeeps(s, GrowthPages(size, align), s1);
      GrowthFits(s, size, align, s1);
      var k1 := FirstFit(s1.free, size, align);
      TakenKeeps(s1, k1, size, align, s');
      BlockIn(s1, k1);
    }
  }

  // ----- Which address is served ------------------------------------------

  /** The allocation may lie at `x`, inside the block and aligned. */
  predicate Place(b: Block, x: nat, size: nat, align: nat)
    requires align > 0
  {
    b.addr <= x && x + size <= b.addr + b.size && x % align == 0
  }

  ghost predicate HasPlace(l: FreeList, x: nat, size: nat, align: nat)
    requires align > 0
  {
    exists i :: 0 <= i < |l| && Place(l[i], x, size, align)
  }

  ghost predicate Lowest(l: FreeList, x: nat, size: nat, align: nat)
    requires align > 0
  {
    HasPlace(l, x, size, align) && forall y: nat :: HasPlace(l, y, size, align) ==> x <= y
  }

  lemma LeastMultiple(x: nat, y: nat, d: nat)
    requires d > 0 && x % d == 0 && y % d == 0 && x < y + d
    ensures x <= y
  {
    var p, q := x / d, y / d;
    assert x == p * d && y == q * d;
    assert p >= q + 1 ==> p * d >= (q + 1) * d;
    assert p <= q ==> p * d <= q * d;
  }

  lemma PlacesAreAbove(b: Block, size: nat, align: nat, x: nat)
    requires 0 < b.addr && 0 < align && End(b) < WORD && NoWrap(b, size, align)
    ensures Place(b, x, size, align) ==> AlignUp(b.addr, align) <= x && Fits(b, size, align)
    ensures Fits(b, size, align) ==> Place(b, AlignUp(b.addr, align), size, align)
  {
    hide AlignUp, Fits, NoWrap;
    FitsMeans(b, size, align);
    if Place(b, x, size, align) { LeastMultiple(AlignUp(b.addr, align), x, align); }
  }

  lemma WindowBlock(l: FreeList, i: nat)
    requires Sorted(l) && Within(l, BASE, WORD - 1) && i < |l|
    ensures BASE <= l[i].addr && End(l[i]) < WORD
  {
  }

  lemma NoPlaceBelow(l: FreeList, size: nat, align: nat, i: nat, x: nat)
    requires Sorted(l) && Within(l, BASE, WORD - 1) && Layout(size, align) && i < FirstFit(l, size, align)
    ensures !Place(l[i], x, size, align)
  {
    hide AlignUp, Fits, NoWrap, FirstFit, Sorted, Within, Place;
    WindowBlock(l, i);
    if !NoWrap(l[i], size, align) { WrapSeemsToFit(l[i], size, align); }
    PlacesAreAbove(l[i], size, align, x);
  }

  /** First fit at the rounded address of the block is the lowest place there is. */
  lemma FirstFitIsLowest(l: FreeList, size: nat, align: nat)
    requires Sorted(l) && Within(l, BASE, WORD - 1) && Layout(size, align)
    ensures var k := FirstFit(l, size, align);
            && (k == |l| ==> forall x: nat :: !HasPlace(l, x, size, align))
            && (k < |l| && NoWrap(l[k], size, align) ==> Lowest(l, AlignUp(l[k].addr, align), size, align))
  {
    hide AlignUp, Fits, NoWrap, FirstFit, Sorted, Within, Place;
    var k := FirstFit(l, size, align);
    forall i: nat, x: nat | i < k ensures !Place(l[i], x, size, align) { NoPlaceBelow(l, size, align, i, x); }
    if k < |l| && NoWrap(l[k], size, align) {
      var a := AlignUp(l[k].addr, align);
      WindowBlock(l, k);
      PlacesAreAbove(l[k], size, align, a);
      forall y: nat | HasPlace(l, y, size, align) ensures a <= y {
        var i :| 0 <= i < |l| && Place(l[i], y, size, align);
        if i == k { PlacesAreAbove(l[k], size, align, y); }
        else if i > k {
          Order(l, k, i);
          PlaceInside(l[k], a, size, align);
          PlaceInside(l[i], y, size, align);
        }
      }
    }
  }

  lemma PlaceInside(b: Block, x: nat, size: nat, align: nat)
    requires align > 0 && Place(b, x, size, align)
    ensures b.addr <= x <= End(b)
  {
  }

  /** The growth in pages: 256, or the least number that holds the request, its alignment
      and one page more. */
  lemma GrowthIsLeast(size: nat, align: nat)
    ensures var n := GrowthPages(size, align);
            && n >= 256 && size + align + 4096 <= n * 4096
            && (n > 256 ==> (n - 1) * 4096 < size + align + 4096)
  {
  }

  /** `alloc` for every layout Rust admits in which no address wraps: if there is a place
      for the request the lowest one is handed out and the heap does not grow; if there is
      none and the pages cannot be had the answer is null; and otherwise the heap grows and
      the lowest place in the grown list is handed out. */
  lemma AllocServesLowest(s: State, size: nat, align: nat, granted: bool, s': State, addr: nat)
    requires HeapInv(s) && Layout(size, align) && AllocSafe(s, size, align, granted)
    requires (s', addr) == Alloc(s, size, align, granted)
    ensures if exists x: nat :: HasPlace(s.free, x, size, align) then
              Lowest(s.free, addr, size, align) && s'.end == s.end
            else if !granted then
              addr == 0 && s' == s
            else
              var n := GrowthPages(size, align);
              Lowest(Grown(s, n).free, addr, size, align) && s'.end == s.end + n * 4096
  {
    hide FirstFit, Taken, Grown, Fits, AlignUp, HeapInv, NoWrap, Lowest, HasPlace, Place;
    var k := FirstFit(s.free, size, align);
    InWord(s);
    FirstFitIsLowest(s.free, size, align);
    if k < |s.free| {
      LowestIsPlace(s.free, AlignUp(s.free[k].addr, align), size, align);
      TakenEnd(s, k, size, align);
    } else if granted {
      var s1 := Grown(s, GrowthPages(size, align));
      GrownKeeps(s, GrowthPages(size, align), s1);
      GrowthFits(s, size, align, s1);
      InWord(s1);
      FirstFitIsLowest(s1.free, size, align);
      TakenEnd(s1, FirstFit(s1.free, size, align), size, align);
    }
  }

  /** The layout's own request: at least 16 bytes, aligned to at least 8. */
  ghost predicate Serves(s: State, layoutSize: nat, layoutAlign: nat, s': State, addr: nat) {
    && s'.live == s.live + [Block(addr, if layoutSize < 16 then 16 else layoutSize)]
    && if layoutAlign < 8 then addr % 8 == 0 else addr % layoutAlign == 0
  }

  lemma AllocServes(s: State, layoutSize: nat, layoutAlign: nat, granted: bool, s': State, addr: nat)
    requires HeapInv(s) && Layout(Max(layoutSize, NODE), Max(layoutAlign, 8))
    requires (s', addr) == Alloc(s, Max(layoutSize, NODE), Max(layoutAlign, 8), granted)
    ensures HeapInv(s') <==> AllocSafe(s, Max(layoutSize, NODE), Max(layoutAlign, 8), granted)
    ensures HeapInv(s') && addr != 0 ==> Serves(s, layoutSize, layoutAlign, s', addr)
  {
    hide HeapInv, Alloc, AllocSafe;
    var size, align := Max(layoutSize, NODE), Max(layoutAlign, 8);
    AllocSoundIff(s, size, align, granted, s', addr);
    if HeapInv(s') { AllocKeeps(s, size, align, granted, s', addr); }
  }

  lemma LowestIsPlace(l: FreeList, x: nat, size: nat, align: nat)
    requires align > 0 && Lowest(l, x, size, align)
    ensures HasPlace(l, x, size, align)
  {
  }

  lemma InWord(s: State)
    requires HeapInv(s)
    ensures Sorted(s.free) && Within(s.free, BASE, WORD - 1)
  {
  }

  /** Requests that leave the window room, in particular all that are small against it,
      never wrap. */
  lemma RoomIsSafe(s: State, size: nat, align: nat, granted: bool)
    requires HeapInv(s) && align > 0 && s.end + GrowthPages(size, align) * 4096 < WORD
    ensures AllocSafe(s, size, align, granted)
  {
    hide AlignUp, NoWrap, FirstFit, Total;
    var k := FirstFit(s.free, size, align);
    if k < |s.free| {
      BlockFine(s.free, k);
      LowBlockDoesNotWrap(s.free[k], s.end, size, align);
    }
  }

  lemma LowInsert(l: FreeList, a: nat, n: nat)
    requires a > 0 && n >= NODE && forall i :: 0 <= i < |l| ==> l[i].addr > a
    ensures Insert(l, a, n) != [] && Insert(l, a, n)[0].addr == a
  {
  }

  lemma InsertAddrs(l: FreeList, a: nat, n: nat, lo: nat)
    requires 0 < lo <= a && forall i :: 0 <= i < |l| ==> l[i].addr >= lo
    ensures forall i :: 0 <= i < |Insert(l, a, n)| ==> Insert(l, a, n)[i].addr >= lo
  {
    hide Below;
  }

  lemma FrontPutAddrs(l: FreeList, k: nat, start: nat, lo: nat)
    requires k < |l| && 0 < lo && forall i :: 0 <= i < |l| ==> l[i].addr >= lo
    ensures forall i :: 0 <= i < |FrontPut(l, k, start)| ==> FrontPut(l, k, start)[i].addr >= lo
  {
    hide Sub64, Insert;
    var l1 := Without(l, k);
    assert forall i :: 0 <= i < |l1| ==> l1[i].addr >= lo;
    InsertAddrs(l1, l[k].addr, Sub64(start, l[k].addr), lo);
  }

  /** Where an address wraps, the block is unlinked, the region from it to the top of the
      address space and the region from far below up to its end are freed, and the caller
      gets null or a block that does not exist: the heap is no longer one. */
  lemma WrapBreaks(s: State, k: nat, size: nat, align: nat, s': State)
    requires HeapInv(s) && k < |s.free| && Layout(size, align) && !NoWrap(s.free[k], size, align)
    requires s' == Taken(s, k, size, align)
    ensures !HeapInv(s')
  {
    hide AlignUp, Add64, Sub64, FrontPut, Total, Sorted, Insert, NoWrap;
    var b, start := s.free[k], AlignUp(s.free[k].addr, align);
    assert End(b) <= s.end;
    Add64Is(b.addr, b.size);
    WrapSeemsToFit(b, size, align);
    AlignUpWraps(b.addr, align);
    if b.addr + align - 1 >= WORD {
      FrontPutAddrs(s.free, k, start, BASE);
      LowInsert(FrontPut(s.free, k, start), size, End(b) - size);
      assert !Within(s'.free, BASE, s.end) by { assert s'.free[0].addr == size; }
    } else {
      assert start + size >= WORD by { NoWrapMeans(b, size, align); }
      var a := s'.live[|s.live|];
      assert a == Block(start, size);
      assert !Within(s'.live, BASE, s.end) by { assert End(a) > s.end; }
    }
  }

  lemma NoWrapMeans(b: Block, size: nat, align: nat)
    requires align > 0 && b.addr + align - 1 < WORD && !NoWrap(b, size, align)
    ensures AlignUp(b.addr, align) + size >= WORD
  {
  }

  /** `alloc` keeps the heap sound if and only if no address wraps. */
  lemma AllocSoundIff(s: State, size: nat, align: nat, granted: bool, s': State, addr: nat)
    requires HeapInv(s) && Layout(size, align) && (s', addr) == Alloc(s, size, align, granted)
    ensures HeapInv(s') <==> AllocSafe(s, size, align, granted)
  {
    hide FirstFit, Taken, Grown, Fits, AlignUp, HeapInv, NoWrap, Add64;
    var k := FirstFit(s.free, size, align);
    if AllocSafe(s, size, align, granted) {
      AllocKeeps(s, size, align, granted, s', addr);
    } else if k < |s.free| {
      WrapBreaks(s, k, size, align, s');
    } else {
      var pages := GrowthPages(size, align);
      GrownEnd(s, pages);
      var s1 := Grown(s, pages);
      if FirstFit(s1.free, size, align) < |s1.free| { TakenEnd(s1, FirstFit(s1.free, size, align), size, align); }
      BadEnd(s');
    }
  }

  lemma GrownEnd(s: State, pages: nat)
    requires HeapInv(s) && WORD <= s.end + pages * 4096 && pages * 4096 < BASE
    ensures Grown(s, pages).end < BASE
  {
    hide Add64;
    Add64Is(s.end, pages * 4096);
  }

  lemma TakenEnd(s: State, k: nat, size: nat, align: nat)
    requires k < |s.free| && align > 0
    ensures Taken(s, k, size, align).end == s.end
  {
  }

  lemma BadEnd(s: State)
    requires s.end < BASE
    ensures !HeapInv(s)
  {
  }

  lemma OnePageHeap(s: State)
    requires s == State([Block(BASE, 4096)], [], [], BASE + 4096, 0)
    ensures HeapInv(s)
  {
    hide Total;
    TotalOne(s.free[0]);
    NoTotal();
  }

  lemma NoTotal()
    ensures Total([]) == 0
  {
  }

  lemma OneBlockFits(b: Block, size: nat, align: nat)
    requires align > 0 && Fits(b, size, align)
    ensures FirstFit([b], size, align) == 0
  {
    hide Fits;
  }

  lemma HugeWraps(b: Block, size: nat)
    requires b == Block(BASE, 4096) && size == 0x100_0000_0000
    ensures AlignUp(b.addr, 8) == BASE && !NoWrap(b, size, 8) && Fits(b, size, 8)
  {
    AlignUpWraps(BASE, 8);
    assert AlignUp(BASE, 8) == BASE;
    WrapSeemsToFit(b, size, 8);
  }

  /** A one-terabyte request is served from a block of one page: the end of the
      allocation wraps to the bottom of the address space. */
  lemma HugeRequestBreaks()
    ensures var s := State([Block(BASE, 4096)], [], [], BASE + 4096, 0);
            var (s', addr) := Alloc(s, 0x100_0000_0000, 8, false);
            HeapInv(s) && addr == BASE && s'.live == [Block(BASE, 0x100_0000_0000)] && !HeapInv(s')
  {
    hide HeapInv, FirstFit, Fits, NoWrap, AlignUp, Carve, Add64, Sub64;
    var b, size := Block(BASE, 4096), 0x100_0000_0000;
    var s := State([b], [], [], BASE + 4096, 0);
    OnePageHeap(s);
    HugeWraps(b, size);
    OneBlockFits(b, size, 8);
    WrapBreaks(s, 0, size, 8, Taken(s, 0, size, 8));
  }

  lemma HasWindow(s: State)
    requires HeapInv(s)
    ensures BASE <= s.end
  {
  }

  lemma BlockIn(s: State, k: nat)
    requires HeapInv(s) && k < |s.free|
    ensures s.free[k].addr > 0
  {
  }

  /** `dealloc` gives back exactly what was allocated. */
  lemma DeallocKeeps(s: State, i: nat, s': State)
    requires HeapInv(s) && i < |s.live| && s' == Dealloc(s, i)
    ensures HeapInv(s') && s'.lost == s.lost && s'.end == s.end
    ensures s'.live == Without(s.live, i) && s'.aligns == Without(s.aligns, i)
    ensures forall x :: Free(s'.free, x) <==> Free(s.free, x) || Inside(s.live[i], x)
  {
    hide Insert, Free, Total;
    var b := s.live[i];
    assert ApartFromAll(s.free, b);
    PutBack(s.free, b.addr, b.size);
    WithoutTotal(s.live, i);
    DeallocWithin(s, b, s'.free);
    assert forall j :: 0 <= j < i ==> s'.live[j] == s.live[j];
    assert forall j :: i <= j < |s'.live| ==> s'.live[j] == s.live[j + 1];
    forall j | 0 <= j < |s'.live| ensures ApartFromAll(s'.free, s'.live[j]) {
      var c := s'.live[j];
      assert ApartFromAll(s.free, c) && Apart(b, c);
      FreeInside(s.free, c);
      ApartFromFree(s'.free, c);
    }
  }

  lemma DeallocWithin(s: State, b: Block, l': FreeList)
    requires Sorted(l') && Within(s.free, BASE, s.end) && BASE <= b.addr && End(b) <= s.end
    requires forall x :: Free(l', x) <==> Free(s.free, x) || Inside(b, x)
    ensures Within(l', BASE, s.end)
  {
    forall i | 0 <= i < |l'| ensures BASE <= l'[i].addr && End(l'[i]) <= s.end && l'[i].size >= NODE {
      var x, y := l'[i].addr, End(l'[i]) - 1;
      assert Inside(l'[i], x) && Inside(l'[i], y);
      assert Free(l', x) && Free(l', y);
    }
  }

  datatype Event = AllocEv(size: nat, align: nat, granted: bool) | FreeEv(i: nat) | GrowEv(pages: nat)

  ghost predicate Allowed(s: State, e: Event) {
    match e
    case AllocEv(size, align, granted) => AllocSafe(s, Max(size, NODE), Max(align, 8), granted)
    case FreeEv(i) => i < |s.live|
    case GrowEv(pages) => s.end + pages * 4096 < WORD
  }

  ghost function Apply(s: State, e: Event): State
    requires Allowed(s, e)
  {
    match e
    case AllocEv(size, align, granted) => Alloc(s, Max(size, NODE), Max(align, 8), granted).0
    case FreeEv(i) => Dealloc(s, i)
    case GrowEv(pages) => Grown(s, pages)
  }

  /** `s'` comes from `s` by the events of `es`, `n` of them allocations. */
  ghost predicate Runs(s: State, es: seq<Event>, s': State, n: nat)
    decreases |es|
  {
    if es == [] then s' == s && n == 0 else
    && Allowed(s, es[0])
    && if es[0].AllocEv? then n > 0 && Runs(Apply(s, es[0]), es[1..], s', n - 1) else Runs(Apply(s, es[0]), es[1..], s', n)
  }

  lemma {:induction false} RunKeeps(s: State, es: seq<Event>, s': State, n: nat)
    requires HeapInv(s) && Runs(s, es, s', n)
    ensures HeapInv(s') && s.lost <= s'.lost <= s.lost + 30 * n
    decreases |es|
  {
    hide HeapInv, Alloc, Dealloc, Grown, AllocSafe;
    if es != [] {
      var e, s1 := es[0], Apply(s, es[0]);
      match e {
        case AllocEv(size, align, granted) =>
          AllocKeeps(s, Max(size, NODE), Max(align, 8), granted, s1, Alloc(s, Max(size, NODE), Max(align, 8), granted).1);
          RunKeeps(s1, es[1..], s', n - 1);
        case FreeEv(i) =>
          DeallocKeeps(s, i, s1);
          RunKeeps(s1, es[1..], s', n);
        case GrowEv(pages) =>
          GrownKeeps(s, pages, s1);
          RunKeeps(s1, es[1..], s', n);
      }
    }
  }

  /** Over every run from the empty heap in which no address wraps: the free list is
      sorted with gaps, live blocks are aligned as asked and disjoint from it and from each
      other, and every byte of the window is free, live or in one of at most 30 lost bytes
      per allocation. */
  lemma HeapConserves(es: seq<Event>, s: State, n: nat)
    requires Runs(Start, es, s, n)
    ensures Sorted(s.free) && Disjoint(s.live) && LiveNotFree(s) && AlignedLive(s)
    ensures Total(s.free) + Total(s.live) + s.lost == s.end - 0xFFFF_FF00_0000_0000 && s.lost <= 30 * n
  {
    RunKeeps(Start, es, s, n);
  }

  // ----- The list as the kernel keeps it -----------------------------------

  /** A node is written into the free memory it describes; `next` is 0 at the end. */
  datatype Node = Node(size: nat, next: nat)

  ghost predicate NodeOk(mem: map<nat, Node>, l: FreeList, i: nat)
    requires i < |l|
  {
    l[i].addr in mem && mem[l[i].addr] == Node(l[i].size, AddrAt(l, i + 1))
  }

  ghost predicate Linked(mem: map<nat, Node>, head: nat, l: FreeList) {
    head == AddrAt(l, 0) && forall i :: 0 <= i < |l| ==> NodeOk(mem, l, i)
  }

  lemma BelowIs(l: FreeList, a: nat, k: nat)
    requires k <= |l| && (forall i :: 0 <= i < k ==> l[i].addr < a) && (k < |l| ==> l[k].addr >= a)
    ensures Below(l, a) == k
  {
  }

  lemma FirstFitIs(l: FreeList, size: nat, align: nat, k: nat)
    requires align > 0 && k <= |l| && (forall i :: 0 <= i < k ==> !Fits(l[i], size, align)) && (k < |l| ==> Fits(l[k], size, align))
    ensures FirstFit(l, size, align) == k
  {
    hide Fits;
  }

  lemma Order(l: FreeList, p: nat, q: nat)
    requires Sorted(l) && p < q < |l|
    ensures l[p].addr <= End(l[p]) < l[q].addr
  {
  }

  /** The links alone only need distinct addresses in order: this also holds of the list
      that a wrapped address leaves. */
  ghost predicate Ordered(l: FreeList) {
    && (forall i :: 0 <= i < |l| ==> l[i].addr > 0)
    && (forall i, j :: 0 <= i < j < |l| ==> l[i].addr < l[j].addr)
  }

  ghost predicate NewAddr(l: FreeList, a: nat) { forall i :: 0 <= i < |l| ==> l[i].addr != a }

  lemma InOrder(l: FreeList, p: nat, q: nat)
    requires Ordered(l) && p < q < |l|
    ensures l[p].addr < l[q].addr
  {
  }

  lemma NodeFine(l: FreeList, k: nat)
    requires Ordered(l) && k < |l|
    ensures l[k].addr > 0
  {
  }

  lemma SpliceOrdered(l: FreeList, i: nat, j: nat, b: Block)
    requires i <= j <= |l| && Ordered(l) && b.addr > 0
    requires i > 0 ==> l[i - 1].addr < b.addr
    requires j < |l| ==> b.addr < l[j].addr
    ensures Ordered(Splice(l, i, j, b))
  {
    hide Splice;
    var l' := Splice(l, i, j, b);
    forall m, n | 0 <= m < n < |l'| ensures l'[m].addr < l'[n].addr {
      SpliceAt(l, i, j, b, m);
      SpliceAt(l, i, j, b, n);
      if m + 1 < i <= n { InOrder(l, m, i - 1); }
      if n > i + 1 && m <= i { InOrder(l, j, n - i - 1 + j); }
    }
    forall m | 0 <= m < |l'| ensures l'[m].addr > 0 { SpliceAt(l, i, j, b, m); }
  }

  /** Rewiring one node, and the link to it, splices the list. */
  ghost predicate Rewired(mem: map<nat, Node>, head: nat, l: FreeList, i: nat, j: nat, b: Block, mem': map<nat, Node>, head': nat)
    requires i <= j <= |l|
  {
    && b.addr in mem' && mem'[b.addr] == Node(b.size, AddrAt(l, j))
    && (if i == 0 then head' == b.addr
        else head' == head && l[i - 1].addr in mem' && mem'[l[i - 1].addr] == Node(l[i - 1].size, b.addr))
    && forall p :: p in mem && p != b.addr && (i > 0 ==> p != l[i - 1].addr) ==> p in mem' && mem'[p] == mem[p]
  }

  lemma SplicedNode(mem: map<nat, Node>, head: nat, l: FreeList, i: nat, j: nat, b: Block, mem': map<nat, Node>, head': nat, m: nat)
    requires Ordered(l) && Linked(mem, head, l) && i <= j <= |l|
    requires i > 0 ==> l[i - 1].addr < b.addr
    requires j < |l| ==> b.addr < l[j].addr
    requires Rewired(mem, head, l, i, j, b, mem', head') && m < |Splice(l, i, j, b)|
    ensures NodeOk(mem', Splice(l, i, j, b), m)
  {
    hide Splice, Ordered;
    SpliceAt(l, i, j, b, m);
    SpliceAt(l, i, j, b, m + 1);
    if m < i {
      assert NodeOk(mem, l, m);
      if m + 1 < i { InOrder(l, m, i - 1); }
    } else if m > i {
      var q := m - i - 1 + j;
      assert NodeOk(mem, l, q);
      if j < q { InOrder(l, j, q); }
      if i > 0 { InOrder(l, i - 1, q); }
    }
  }

  lemma LinkedSplice(mem: map<nat, Node>, head: nat, l: FreeList, i: nat, j: nat, b: Block, mem': map<nat, Node>, head': nat)
    requires Ordered(l) && Linked(mem, head, l) && i <= j <= |l|
    requires i > 0 ==> l[i - 1].addr < b.addr
    requires j < |l| ==> b.addr < l[j].addr
    requires Rewired(mem, head, l, i, j, b, mem', head')
    ensures Linked(mem', head', Splice(l, i, j, b))
  {
    hide Splice, Ordered;
    SpliceAt(l, i, j, b, 0);
    forall m | 0 <= m < |Splice(l, i, j, b)| ensures NodeOk(mem', Splice(l, i, j, b), m) {
      SplicedNode(mem, head, l, i, j, b, mem', head', m);
    }
  }

  lemma LinkedWithout(mem: map<nat, Node>, head: nat, l: FreeList, k: nat, mem': map<nat, Node>, head': nat)
    requires Ordered(l) && Linked(mem, head, l) && k < |l|
    requires k > 0 ==> head' == head && mem' == mem[l[k - 1].addr := Node(l[k - 1].size, AddrAt(l, k + 1))]
    requires k == 0 ==> head' == AddrAt(l, 1) && mem' == mem
    ensures Linked(mem', head', Without(l, k)) && Ordered(Without(l, k))
  {
    var l' := Without(l, k);
    assert forall m :: 0 <= m < |l'| ==> l'[m] == l[if m < k then m else m + 1];
    forall m | 0 <= m < |l'| ensures NodeOk(mem', l', m) {
      var q := if m < k then m else m + 1;
      assert l'[m] == l[q] && NodeOk(mem, l, q);
      assert AddrAt(l', m + 1) == if m + 1 < k then AddrAt(l, m + 1) else AddrAt(l, m + 2);
      if k > 0 && q < k - 1 { InOrder(l, q, k - 1); }
      if k > 0 && q > k - 1 { InOrder(l, k - 1, q); }
    }
  }

  /** The piece behind the allocation does not start where a block does. */
  lemma BackIsNew(l: FreeList, k: nat, start: nat, size: nat)
    requires Sorted(l) && k < |l| && l[k].addr <= start && start + size + NODE <= End(l[k]) < WORD
    ensures NewAddr(FrontPut(l, k, start), start + size)
  {
    hide FrontPut, Free;
    var l2, b := FrontPut(l, k, start), Block(start + size, End(l[k]) - (start + size));
    FrontKeeps(l, k, start, l2);
    ApartFromFree(l2, b);
    forall i | 0 <= i < |l2| ensures l2[i].addr != start + size {
      BlockFine(l2, i);
      assert Apart(l2[i], b);
    }
  }

  lemma WithoutIsNew(l: FreeList, k: nat)
    requires Sorted(l) && k < |l|
    ensures NewAddr(Without(l, k), l[k].addr)
  {
    var l1 := Without(l, k);
    assert forall i :: 0 <= i < |l1| ==> l1[i] == l[if i < k then i else i + 1];
  }

  /** What the nodes around address `a` say. */
  lemma Neighbours(l: FreeList, a: nat, n: nat, mem: map<nat, Node>, head: nat)
    requires Ordered(l) && Linked(mem, head, l) && n >= NODE && a > 0 && NewAddr(l, a)
    ensures var k, b := Below(l, a), Merged(l, a, n);
            && (k > 0 ==> 0 < l[k - 1].addr < a && NodeOk(mem, l, k - 1))
            && (k < |l| ==> a < l[k].addr && NodeOk(mem, l, k))
            && b == Block(if JoinsLeft(l, a) then l[k - 1].addr else a,
                          (if JoinsLeft(l, a) then l[k - 1].size else 0) + n + if JoinsRight(l, a, n) then l[k].size else 0)
            && (k > 1 ==> l[k - 2].addr < l[k - 1].addr && NodeOk(mem, l, k - 2))
            && (k + 1 < |l| ==> l[k].addr < l[k + 1].addr)
  {
  }

  class LockedHeap {
    var head: nat
    var heapEnd: nat
    var mem: map<nat, Node>
    ghost var list: FreeList
    ghost var live: seq<Block>
    ghost var aligns: seq<nat>
    ghost var lost: nat

    ghost predicate Valid()
      reads this
    {
      Ordered(list) && Linked(mem, head, list)
    }

    ghost function View(): State
      reads this
    {
      State(list, live, aligns, heapEnd, lost)
    }

    constructor ()
      ensures Valid() && View() == Start
    {
      head, heapEnd, mem, list, live, aligns, lost := 0, BASE, map[], [], [], [], 0;
    }

    /** The search loop: the neighbours of address `a`, 0 where there is none. */
    method Locate(a: nat) returns (prev: nat, curr: nat)
      requires Valid()
      ensures var k := Below(list, a);
              curr == AddrAt(list, k) && prev == if k == 0 then 0 else list[k - 1].addr
    {
      prev, curr := 0, head;
      ghost var k: nat := 0;
      while curr != 0 && curr < a
        invariant k <= |list| && curr == AddrAt(list, k) && prev == (if k == 0 then 0 else list[k - 1].addr)
        invariant forall i :: 0 <= i < k ==> list[i].addr < a
        decreases |list| - k
      {
        assert NodeOk(mem, list, k);
        prev, curr := curr, mem[curr].next;
        k := k + 1;
      }
      if k < |list| { NodeFine(list, k); }
      BelowIs(list, a, k);
    }

    method AddFreeRegion(a: nat, n: nat)
      requires Valid() && (n >= NODE && a > 0 ==> NewAddr(list, a))
      modifies this`head, this`mem, this`list
      ensures Valid() && list == Insert(old(list), a, n)
    {
      if n < NODE { return; }
      var prev, curr := Locate(a);
      hide Ordered, Insert, NewAddr;
      ghost var k := Below(list, a);
      if k > 0 { NodeFine(list, k - 1); }
      if prev == 0 {
        HeadRegion(a, n, curr);
        return;
      }
      assert NodeOk(mem, list, k - 1);
      if prev + mem[prev].size == a {
        JoinLeft(a, n, prev, curr);
      } else {
        InsertAfter(a, n, prev, curr);
      }
    }

    /** The region extends the block before it, and perhaps reaches the block after. */
    method JoinLeft(a: nat, n: nat, prev: nat, curr: nat)
      requires Valid() && n >= NODE && a > 0 && NewAddr(list, a)
      requires var k := Below(list, a); k > 0 && prev == list[k - 1].addr && curr == AddrAt(list, k) && JoinsLeft(list, a)
      modifies this`head, this`mem, this`list
      ensures Valid() && list == Insert(old(list), a, n)
    {
      hide Splice, Ordered, Below, Merged, Insert, NewAddr;
      ghost var l, was, k := list, mem, Below(list, a);
      Neighbours(l, a, n, mem, head);
      EndOfList(l, k);
      mem := mem[prev := Node(mem[prev].size + n, mem[prev].next)];
      if curr != 0 && prev + mem[prev].size == curr {
        mem := mem[prev := Node(mem[prev].size + mem[curr].size, mem[curr].next)];
      }
      ghost var j := if JoinsRight(l, a, n) then k + 1 else k;
      LinkedSplice(was, head, l, k - 1, j, Merged(l, a, n), mem, head);
      SpliceOrdered(l, k - 1, j, Merged(l, a, n));
      InsertIs(l, a, n);
      list := Splice(l, k - 1, j, Merged(l, a, n));
    }

    /** The region becomes a node of its own, perhaps together with the block after it. */
    method InsertAfter(a: nat, n: nat, prev: nat, curr: nat)
      requires Valid() && n >= NODE && a > 0 && NewAddr(list, a)
      requires var k := Below(list, a); k > 0 && prev == list[k - 1].addr && curr == AddrAt(list, k) && !JoinsLeft(list, a)
      modifies this`head, this`mem, this`list
      ensures Valid() && list == Insert(old(list), a, n)
    {
      hide Splice, Ordered, Below, Merged, Insert, NewAddr;
      ghost var l, was, k := list, mem, Below(list, a);
      Neighbours(l, a, n, mem, head);
      EndOfList(l, k);
      mem := mem[a := if curr != 0 && a + n == curr then Node(n + mem[curr].size, mem[curr].next) else Node(n, curr)];
      mem := mem[prev := Node(mem[prev].size, a)];
      ghost var j := if JoinsRight(l, a, n) then k + 1 else k;
      LinkedSplice(was, head, l, k, j, Merged(l, a, n), mem, head);
      SpliceOrdered(l, k, j, Merged(l, a, n));
      InsertIs(l, a, n);
      list := Splice(l, k, j, Merged(l, a, n));
    }

    /** The region becomes the first of the list. */
    method HeadRegion(a: nat, n: nat, curr: nat)
      requires Valid() && n >= NODE && (a > 0 ==> NewAddr(list, a)) && Below(list, a) == 0 && curr == head
      modifies this`head, this`mem, this`list
      ensures Valid() && list == Insert(old(list), a, n)
    {
      ghost var l, was, first := list, mem, head;
      if curr != 0 { assert NodeOk(mem, l, 0); }
      mem := mem[a := if curr != 0 && a + n == curr then Node(n + mem[curr].size, mem[curr].next) else Node(n, curr)];
      head := a;
      if a == 0 {
        list := [];
        return;
      }
      hide Splice, Ordered, Below, Merged, Insert;
      Neighbours(l, a, n, was, first);
      ghost var j := if JoinsRight(l, a, n) then 1 else 0;
      if |l| > 0 { NodeFine(l, 0); }
      LinkedSplice(was, first, l, 0, j, Merged(l, a, n), mem, head);
      SpliceOrdered(l, 0, j, Merged(l, a, n));
      InsertIs(l, a, n);
      list := Splice(l, 0, j, Merged(l, a, n));
    }

    method FindAndRemove(size: nat, align: nat) returns (found: Option<nat>)
      requires Valid() && Sorted(list) && InWindow(list) && Layout(size, align)
      modifies this`head, this`mem, this`list
      ensures Valid()
      ensures var k := FirstFit(old(list), size, align);
              if k == |old(list)| then found == None && list == old(list)
              else
                var start := AlignUp(old(list)[k].addr, align);
                found == Some(start) && list == Carve(old(list), k, start, size)
    {
      hide Fits, AlignUp, Carve, Insert, Sorted, Ordered, NoWrap, Add64;
      var prev, current := 0, head;
      ghost var k := 0;
      while current != 0
        invariant Valid() && list == old(list)
        invariant k <= |list| && current == AddrAt(list, k) && prev == (if k == 0 then 0 else list[k - 1].addr)
        invariant forall i :: 0 <= i < k ==> !Fits(list[i], size, align)
        decreases |list| - k
      {
        assert NodeOk(mem, list, k);
        var start := AlignUp(current, align);
        var end := Add64(start, size);
        var node := mem[current];
        var nodeEnd := Add64(current, node.size);
        FitsIs(list[k], size, align);
        if end <= nodeEnd {
          FirstFitIs(list, size, align, k);
          RestorePlan(list, k, size, align);
          Unlink(prev, node.next, k);
          Restore(current, nodeEnd, start, size, old(list), k);
          return Some(start);
        }
        prev, current := current, node.next;
        k := k + 1;
      }
      EndOfList(list, k);
      FirstFitIs(list, size, align, k);
      return None;
    }

    /** `*prev = next`. */
    method Unlink(prev: nat, next: nat, ghost k: nat)
      requires Valid() && k < |list| && prev == (if k == 0 then 0 else list[k - 1].addr) && next == AddrAt(list, k + 1)
      modifies this`head, this`mem, this`list
      ensures Valid() && list == Without(old(list), k)
    {
      hide Ordered, Without;
      if k > 0 {
        NodeFine(list, k - 1);
        assert NodeOk(mem, list, k - 1);
      }
      ghost var l, was, first := list, mem, head;
      if prev == 0 {
        head := next;
      } else {
        mem := mem[prev := Node(mem[prev].size, next)];
      }
      LinkedWithout(was, first, l, k, mem, head);
      list := Without(l, k);
    }

    /** Frees the two pieces around an allocation, whatever the wrapped differences are. */
    method Restore(node: nat, nodeEnd: nat, start: nat, size: nat, ghost l: FreeList, ghost k: nat)
      requires Valid() && k < |l| && l[k].addr == node && Top(l[k]) == nodeEnd && list == Without(l, k)
      requires CanRestore(l, k, start, size)
      modifies this`head, this`mem, this`list
      ensures Valid() && list == Carve(l, k, start, size)
    {
      hide Insert, Ordered, Without, Add64, Sub64, NewAddr;
      var front, end := Sub64(start, node), Add64(start, size);
      if front > 0 {
        AddFreeRegion(node, front);
      }
      assert list == FrontPut(l, k, start);
      if nodeEnd > end {
        AddFreeRegion(end, nodeEnd - end);
      }
    }

    /** `supply` is how many pages the page allocator can still hand out. */
    method GrowBy(pages: nat, supply: nat)
      requires Valid() && HeapInv(View())
      modifies this`head, this`mem, this`list, this`heapEnd
      ensures Valid() && View() == if supply < pages then old(View()) else Grown(old(View()), pages)
    {
      hide Insert, Add64;
      if supply < pages { return; }
      var start := heapEnd;
      heapEnd := Add64(heapEnd, pages * 4096);
      AddFreeRegion(start, pages * 4096);
    }

    /** `alloc`. */
    method Allocate(layoutSize: nat, layoutAlign: nat, supply: nat) returns (addr: nat)
      requires Valid() && HeapInv(View()) && Layout(Max(layoutSize, NODE), Max(layoutAlign, 8))
      modifies this
      ensures var size, align := Max(layoutSize, NODE), Max(layoutAlign, 8);
              var granted := supply >= GrowthPages(size, align);
              && (View(), addr) == Alloc(old(View()), size, align, granted)
              && (HeapInv(View()) <==> AllocSafe(old(View()), size, align, granted))
      ensures HeapInv(View()) && addr != 0 ==> Serves(old(View()), layoutSize, layoutAlign, View(), addr)
      ensures Valid()
    {
      hide Carve, AlignUp, FirstFit, Insert, HeapInv, Sorted, Linked, Ordered, NoWrap, Add64, Sub64, Serves, AllocSafe;
      var size, align := Max(layoutSize, NODE), Max(layoutAlign, 8);
      ghost var s := View();
      InTheWindow(s);
      var r := FindAndRemove(size, align);
      if r.None? {
        var pages := GrowthPages(size, align);
        GrowBy(pages, supply);
        if supply >= pages { GrownInWindow(s, pages, View()); }
        s := View();
        r := FindAndRemove(size, align);
      }
      if r.Some? {
        ghost var b := s.free[FirstFit(s.free, size, align)];
        ghost var back := if Top(b) > Add64(r.value, size) then Top(b) - Add64(r.value, size) else 0;
        live := if r.value == 0 then live else live + [Block(r.value, size)];
        aligns := if r.value == 0 then aligns else aligns + [align];
        lost := lost + Sliver(Sub64(r.value, b.addr)) + Sliver(back);
        assert View() == Taken(s, FirstFit(s.free, size, align), size, align);
      }
      addr := if r.Some? then r.value else 0;
      AllocServes(old(View()), layoutSize, layoutAlign, supply >= GrowthPages(size, align), View(), addr);
    }

    method Deallocate(ptr: nat, layoutSize: nat, ghost i: nat)
      requires Valid() && HeapInv(View()) && i < |live| && live[i] == Block(ptr, if layoutSize < 16 then 16 else layoutSize)
      modifies this
      ensures Valid() && HeapInv(View()) && View() == Dealloc(old(View()), i)
    {
      hide Insert;
      ghost var s := View();
      LiveIsNew(s, i);
      live := Without(live, i);
      aligns := Without(aligns, i);
      AddFreeRegion(ptr, Max(layoutSize, NODE));
      DeallocKeeps(s, i, View());
    }
  }

  lemma EndOfList(l: FreeList, k: nat)
    requires Ordered(l) && k <= |l|
    ensures AddrAt(l, k) == 0 <==> k == |l|
  {
  }

  lemma InsertIs(l: FreeList, a: nat, n: nat)
    requires n >= NODE && a > 0
    ensures var k := Below(l, a);
            Insert(l, a, n) == Splice(l, if JoinsLeft(l, a) then k - 1 else k, if JoinsRight(l, a, n) then k + 1 else k, Merged(l, a, n))
  {
  }

  lemma FitsIs(b: Block, size: nat, align: nat)
    requires align > 0
    ensures Fits(b, size, align) <==> Add64(AlignUp(b.addr, align), size) <= Add64(b.addr, b.size)
  {
  }

  /** The two pieces start at addresses the list does not have yet. */
  ghost predicate CanRestore(l: FreeList, k: nat, start: nat, size: nat)
    requires k < |l|
  {
    && NewAddr(Without(l, k), l[k].addr)
    && var end := Add64(start, size);
    0 < end && end + NODE <= Top(l[k]) ==> NewAddr(FrontPut(l, k, start), end)
  }

  lemma RestorePlan(l: FreeList, k: nat, size: nat, align: nat)
    requires Sorted(l) && InWindow(l) && k < |l| && Layout(size, align) && Fits(l[k], size, align)
    ensures CanRestore(l, k, AlignUp(l[k].addr, align), size)
  {
    hide AlignUp, Add64, FrontPut, Sorted, NoWrap, Without;
    var b, start := l[k], AlignUp(l[k].addr, align);
    BlockFine(l, k);
    Add64Is(b.addr, b.size);
    WithoutIsNew(l, k);
    if End(b) >= WORD {
      FitsIs(b, size, align);
      FrontPutAddrs(l, k, start, BASE);
    } else if NoWrap(b, size, align) {
      FitsMeans(b, size, align);
      assert start + size < WORD by { NoWrapSum(b, size, align); }
      Add64Is(start, size);
      if start + size + NODE <= End(b) { BackIsNew(l, k, start, size); }
    } else {
      WrapSeemsToFit(b, size, align);
      FrontPutAddrs(l, k, start, BASE);
    }
  }

  lemma NoWrapSum(b: Block, size: nat, align: nat)
    requires align > 0 && NoWrap(b, size, align)
    ensures AlignUp(b.addr, align) + size < WORD
  {
  }

  lemma LiveIsNew(s: State, i: nat)
    requires HeapInv(s) && i < |s.live|
    ensures NewAddr(s.free, s.live[i].addr) && s.live[i].addr > 0 && |s.aligns| == |s.live|
  {
    hide Total;
    assert ApartFromAll(s.free, s.live[i]);
    forall j | 0 <= j < |s.free| ensures s.free[j].addr != s.live[i].addr {
      BlockFine(s.free, j);
      assert Apart(s.free[j], s.live[i]);
    }
  }

  /** The list after a growth, also one past the top of the address space. */
  lemma GrownInWindow(s: State, pages: nat, s': State)
    requires HeapInv(s) && s' == Grown(s, pages) && pages * 4096 < BASE
    ensures InWindow(s'.free) && Sorted(s'.free)
  {
    hide Insert, Free, Total, Add64;
    var n := pages * 4096;
    var b := Block(s.end, n);
    assert ApartFromAll(s.free, b);
    PutBack(s.free, s.end, n);
    if pages == 0 { InsertSmall(s.free, s.end, 0); }
    GrownWithin(s, b, s'.free);
    forall i | 0 <= i < |s'.free| ensures BASE <= s'.free[i].addr && (End(s'.free[i]) < WORD || Top(s'.free[i]) < BASE) {
      Add64Is(s'.free[i].addr, s'.free[i].size);
    }
  }

  lemma InTheWindow(s: State)
    requires HeapInv(s)
    ensures InWindow(s.free) && Sorted(s.free)
  {
  }
}
