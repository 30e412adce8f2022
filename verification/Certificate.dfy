/** Impossibility certificates: a claim that a principal cannot reach a page, bound to a
    64-bit checksum of the grant table.

    The checksum mixes one word after another, each by exclusive or and multiplication
    by an odd constant.  Both are bijections on 64-bit words, so a change of a single
    word always shows. */
module Certificate {
  import opened Options
  import opened Arith
  import opened AuthorityGraph
  import opened Iommu

  const FNV_OFFSET: nat := 0xcbf2_9ce4_8422_2325
  const FNV_PRIME: nat := 0x100_0000_01b3

  type Word = x: nat | x < 0x1_0000_0000_0000_0000

  // ----- Mixing is a bijection --------------------------------------------

  function Xor(a: nat, b: nat): nat
    decreases a + b
  {
    if a == 0 && b == 0 then 0 else (if a % 2 == b % 2 then 0 else 1) + 2 * Xor(a / 2, b / 2)
  }

  lemma {:induction false} XorBelow(a: nat, b: nat, n: nat)
    requires a < Power2(n) && b < Power2(n)
    ensures Xor(a, b) < Power2(n)
  {
    if n > 0 { XorBelow(a / 2, b / 2, n - 1); }
  }

  lemma {:induction false} XorInjective(h: nat, a: nat, b: nat)
    requires Xor(h, a) == Xor(h, b)
    ensures a == b
    decreases h + a + b
  {
    if h != 0 || a != 0 || b != 0 {
      assert a % 2 == b % 2;
      XorInjective(h / 2, a / 2, b / 2);
    }
  }

  predicate BitOf(a: nat, i: nat) { if i == 0 then a % 2 == 1 else BitOf(a / 2, i - 1) }

  /** Bit by bit: a bit of the result is set when it is set in exactly one of the two. */
  lemma {:induction false} XorBit(a: nat, b: nat, i: nat)
    ensures BitOf(Xor(a, b), i) <==> BitOf(a, i) != BitOf(b, i)
    decreases i
  {
    if i > 0 { XorBit(a / 2, b / 2, i - 1); }
  }

  lemma {:induction false} XorSymmetric(a: nat, b: nat)
    ensures Xor(a, b) == Xor(b, a)
    decreases a + b
  {
    if a != 0 || b != 0 { XorSymmetric(a / 2, b / 2); }
  }

  function Power2(n: nat): nat { if n == 0 then 1 else 2 * Power2(n - 1) }

  lemma Power64()
    ensures Power2(64) == WORD
  {
    assert Power2(8) == 0x100;
    Power2Add(8, 8);
    Power2Add(16, 16);
    Power2Add(32, 32);
  }

  lemma {:induction false} Power2Add(a: nat, b: nat)
    ensures Power2(a + b) == Power2(a) * Power2(b)
  {
    if b > 0 { Power2Add(a, b - 1); }
  }

  /** One step of the checksum, in wrapping 64-bit arithmetic. */
  function Mix(h: Word, v: Word): Word { Xor(h, v) * FNV_PRIME % 0x1_0000_0000_0000_0000 }

  /** The inverse of the prime modulo 2^64. */
  const FNV_INVERSE: nat := 0xce96_5057_aff6_957b

  lemma PrimeInverts(x: nat)
    requires x < WORD
    ensures x * FNV_PRIME % WORD * FNV_INVERSE % WORD == x
  {
    var k, r := x * FNV_PRIME / WORD, x * FNV_PRIME % WORD;
    var c := 0xce_9650_590f;
    assert FNV_PRIME * FNV_INVERSE == 1 + c * WORD;
    var e := x * c - k * FNV_INVERSE;
    assert r * FNV_INVERSE == x + e * WORD by { Unfold(x, k, r, c); }
    assert e >= 0;
    DivIs(r * FNV_INVERSE, WORD, e, x);
  }

  lemma Unfold(x: nat, k: nat, r: nat, c: nat)
    requires x * FNV_PRIME == k * WORD + r && FNV_PRIME * FNV_INVERSE == 1 + c * WORD
    ensures r * FNV_INVERSE == x + (x * c - k * FNV_INVERSE) * WORD
  {
  }

  /** The checksum is FNV-1a over words: the offset basis for an empty table, and its
      prime as the factor. */
  lemma IsFnv(v: Word)
    ensures Checksum([]) == 14695981039346656037 && Mix(0, v) == v * 1099511628211 % 18446744073709551616
  {
    XorZero(v);
  }

  lemma {:induction false} XorZero(v: nat)
    ensures Xor(0, v) == v
  {
    if v > 0 { XorZero(v / 2); }
  }

  /** Mixing in different words gives different results. */
  lemma MixWord(h: Word, a: Word, b: Word)
    ensures Mix(h, a) == Mix(h, b) <==> a == b
  {
    if Mix(h, a) == Mix(h, b) {
      XorIsWord(h, a);
      XorIsWord(h, b);
      PrimeInverts(Xor(h, a));
      PrimeInverts(Xor(h, b));
      XorInjective(h, a, b);
    }
  }

  /** Mixing the same word into different values keeps them different. */
  lemma MixState(g: Word, h: Word, a: Word)
    ensures Mix(g, a) == Mix(h, a) <==> g == h
  {
    if Mix(g, a) == Mix(h, a) {
      XorIsWord(g, a);
      XorIsWord(h, a);
      PrimeInverts(Xor(g, a));
      PrimeInverts(Xor(h, a));
      XorSymmetric(g, a);
      XorSymmetric(h, a);
      XorInjective(a, g, h);
    }
  }

  lemma XorIsWord(a: Word, b: Word)
    ensures Xor(a, b) < WORD
  {
    hide Power2;
    Power64();
    XorBelow(a, b, 64);
  }

  function MixAll(h: Word, ws: seq<Word>): Word {
    if ws == [] then h else Mix(MixAll(h, ws[..|ws| - 1]), ws[|ws| - 1])
  }

  lemma {:induction false} MixAllConcat(h: Word, a: seq<Word>, b: seq<Word>)
    ensures MixAll(h, a + b) == MixAll(MixAll(h, a), b)
    decreases |b|
  {
    hide Mix;
    if b == [] {
      assert a + b == a;
    } else {
      assert (a + b)[..|a + b| - 1] == a + b[..|b| - 1];
      MixAllConcat(h, a, b[..|b| - 1]);
    }
  }

  /** Two streams that agree except perhaps in word `k` have the same checksum exactly
      when they agree in word `k` too. */
  lemma {:induction false} OneWordShows(h: Word, u: seq<Word>, v: seq<Word>, k: nat)
    requires |u| == |v| && k < |u| && forall i :: 0 <= i < |u| && i != k ==> u[i] == v[i]
    ensures MixAll(h, u) == MixAll(h, v) <==> u[k] == v[k]
    decreases |u|
  {
    hide Mix;
    var n := |u| - 1;
    if k == n {
      assert u[..n] == v[..n];
      MixWord(MixAll(h, u[..n]), u[n], v[n]);
    } else {
      OneWordShows(h, u[..n], v[..n], k);
      MixState(MixAll(h, u[..n]), MixAll(h, v[..n]), u[n]);
    }
  }

  // ----- The words of a table ---------------------------------------------

  /** The fields fit their machine types. */
  predicate Sized(x: Grant) {
    && x.base < WORD && x.len < WORD
    && match x.principal
       case CpuProcess(id) => id < 0x1_0000_0000
       case PciDevice(b) => IsBdf(b)
  }

  type SizedGrant = x: Grant | Sized(x) witness Grant(CpuProcess(0), 0, 0, false, false)

  type Table = seq<Option<SizedGrant>>

  function BoolWord(b: bool): Word { if b then 1 else 0 }

  function PrincipalWords(p: Principal): (ws: seq<Word>)
    requires match p case CpuProcess(id) => id < 0x1_0000_0000 case PciDevice(b) => IsBdf(b)
    ensures |ws| == 3
  {
    match p
    case CpuProcess(id) => [0, id, 0]
    case PciDevice(b) => [1, b.bus, b.device * 256 + b.function_]
  }

  /** The seven words mixed in for a grant. */
  function Words(x: SizedGrant): (ws: seq<Word>)
    ensures |ws| == 7
  {
    PrincipalWords(x.principal) + [x.base, x.len, BoolWord(x.writable), BoolWord(x.executable)]
  }

  function SlotWords(s: Option<SizedGrant>): seq<Word> { if s.Some? then Words(s.value) else [] }

  function Stream(g: Table): seq<Word> {
    if g == [] then [] else Stream(g[..|g| - 1]) + SlotWords(g[|g| - 1])
  }

  /** `checksum_graph`. */
  function Checksum(g: Table): Word { MixAll(FNV_OFFSET, Stream(g)) }

  /** The live grants in table order. */
  function Live(g: Table): seq<SizedGrant> {
    if g == [] then [] else Live(g[..|g| - 1]) + if g[|g| - 1].Some? then [g[|g| - 1].value] else []
  }

  function LiveWords(xs: seq<SizedGrant>): seq<Word> {
    if xs == [] then [] else LiveWords(xs[..|xs| - 1]) + Words(xs[|xs| - 1])
  }

  /** The stream depends on the live grants alone, not on where the empty slots are. */
  lemma {:induction false} StreamIsLive(g: Table)
    ensures Stream(g) == LiveWords(Live(g))
  {
    if g != [] {
      var front, s := g[..|g| - 1], g[|g| - 1];
      StreamIsLive(front);
      if s.Some? {
        assert Live(g)[..|Live(g)| - 1] == Live(front);
      } else {
        assert Live(g) == Live(front) && Stream(g) == Stream(front);
      }
    }
  }

  ghost predicate SomeHolds(xs: seq<SizedGrant>, p: Principal, addr: nat) {
    exists k :: 0 <= k < |xs| && Holds(Some(xs[k]), p, addr)
  }

  lemma SomeHoldsSnoc(xs: seq<SizedGrant>, x: SizedGrant, p: Principal, addr: nat)
    ensures SomeHolds(xs + [x], p, addr) <==> SomeHolds(xs, p, addr) || Holds(Some(x), p, addr)
  {
    hide Holds;
    var ys := xs + [x];
    if SomeHolds(xs, p, addr) {
      var k :| 0 <= k < |xs| && Holds(Some(xs[k]), p, addr);
      assert Holds(Some(ys[k]), p, addr);
    }
    if Holds(Some(x), p, addr) { assert Holds(Some(ys[|xs|]), p, addr); }
  }

  /** So does reachability. */
  lemma {:induction false} ReachIsLive(g: Table, p: Principal, addr: nat)
    ensures IsReachable(g, p, addr) <==> SomeHolds(Live(g), p, addr)
  {
    if g != [] {
      hide Holds, SomeHolds, IsReachable;
      var front, s, xs := g[..|g| - 1], g[|g| - 1], Live(g);
      ReachIsLive(front, p, addr);
      ReachLast(g, p, addr);
      if s.Some? {
        assert xs == Live(front) + [s.value];
        SomeHoldsSnoc(Live(front), s.value, p, addr);
      } else {
        assert xs == Live(front);
        NoneHolds(p, addr);
      }
    }
  }

  lemma NoneHolds(p: Principal, addr: nat)
    ensures !Holds(None, p, addr)
  {
  }

  // ----- Certificates -----------------------------------------------------

  datatype Claim = Claim(principal: Principal, page: nat, checksum: Word)

  datatype Verdict = Valid | Stale

  ghost function Issue(g: Table, p: Principal, page: nat): Option<Claim> {
    if IsReachable(g, p, page) then None else Some(Claim(p, page, Checksum(g)))
  }

  function Verify(g: Table, c: Claim): Verdict { if Checksum(g) != c.checksum then Stale else Valid }

  /** As long as the live grants are those seen at issue, wherever the empty slots are,
      the certificate verifies and what it claims is true. */
  lemma SameGrantsStayValid(g: Table, g': Table, p: Principal, page: nat)
    requires Live(g') == Live(g) && !IsReachable(g, p, page)
    ensures Issue(g, p, page).Some? && Verify(g', Issue(g, p, page).value) == Valid && !IsReachable(g', p, page)
  {
    hide MixAll, IsReachable;
    StreamIsLive(g);
    StreamIsLive(g');
    ReachIsLive(g, p, page);
    ReachIsLive(g', p, page);
  }

  lemma {:induction false} LiveConcat(a: Table, c: Table)
    ensures Live(a + c) == Live(a) + Live(c)
    decreases |c|
  {
    if c == [] {
      assert a + c == a;
    } else {
      assert (a + c)[..|a + c| - 1] == a + c[..|c| - 1];
      LiveConcat(a, c[..|c| - 1]);
    }
  }

  lemma LiveSlot(s: Option<SizedGrant>)
    ensures Live([s]) == if s.Some? then [s.value] else []
  {
    assert [s][..0] == [];
  }

  /** The live grants are exactly the slots that are taken. */
  lemma {:induction false} LiveFrom(g: Table)
    ensures Live(g) == [] <==> forall k :: 0 <= k < |g| ==> g[k].None?
    ensures forall n :: 0 <= n < |Live(g)| ==> Some(Live(g)[n]) in g
  {
    if g != [] {
      var front, s := g[..|g| - 1], g[|g| - 1];
      LiveFrom(front);
      assert forall k :: 0 <= k < |front| ==> front[k] == g[k];
      forall n | 0 <= n < |Live(g)| ensures Some(Live(g)[n]) in g {
        if n < |Live(front)| {
          assert Some(Live(front)[n]) in front;
        } else {
          assert g[|g| - 1] == s;
        }
      }
    }
  }

  /** A table cut around slots `j` and `i`. */
  lemma LiveAround(g: Table, j: nat, i: nat)
    requires j < i < |g|
    ensures Live(g) == Live(g[..j]) + Live([g[j]]) + Live(g[j + 1..i]) + Live([g[i]]) + Live(g[i + 1..])
  {
    hide Live;
    LiveCut(g, i);
    LiveCut(g[..i], j);
    assert g[..i][..j] == g[..j] && g[..i][j + 1..] == g[j + 1..i];
  }

  lemma LiveCut(g: Table, i: nat)
    requires i < |g|
    ensures Live(g) == Live(g[..i]) + Live([g[i]]) + Live(g[i + 1..])
  {
    hide Live;
    Cut(g, i);
    LiveConcat(g[..i], g[i..]);
    LiveConcat([g[i]], g[i + 1..]);
  }

  lemma Cut<T>(s: seq<T>, i: nat)
    requires i < |s|
    ensures s == s[..i] + s[i..] && s[i..] == [s[i]] + s[i + 1..]
  {
  }

  /** Moving one element to the front of a stretch changes the list unless the stretch is
      empty, if the stretch does not hold it. */
  lemma MovedIsSame<T>(a: seq<T>, m: seq<T>, x: T, c: seq<T>)
    requires x !in m
    ensures a + [x] + m + c == a + m + [x] + c <==> m == []
  {
    if m != [] {
      assert (a + [x] + m + c)[|a|] == x && (a + m + [x] + c)[|a|] == m[0];
    }
  }

  /** A grant alone with its principal and base, in slot `i`, is revoked and granted again. */
  ghost predicate Regranted(g: Table, i: nat, g': Graph) {
    && i < |g| && g[i].Some?
    && var x := g[i].value;
    && (forall k :: 0 <= k < |g| && k != i ==> !Matches(g[k], x.principal, x.base))
    && g' == AddGrant(DropGrants(g, x.principal, x.base), x)
  }

  lemma RegrantedSlot(g: Table, i: nat, g': Graph)
    requires Regranted(g, i, g')
    ensures var x := g[i].value; var g1 := g[i := None]; var j := FirstFree(g1);
            && DropGrants(g, x.principal, x.base) == g1 && j <= i && g' == g1[j := Some(x)]
            && (j < i ==> g[j].None?)
  {
    var x := g[i].value;
    var dropped := DropGrants(g, x.principal, x.base);
    assert dropped == g[i := None];
    assert dropped[i].None?;
    hide DropGrants;
    assert HasRoom(dropped);
  }

  /** Revoking a grant and granting it again gives the same live grants if and only if it
      comes back to its old place among them: every slot between the first empty one and
      its own is empty. */
  lemma RegrantSameIff(g: Table, i: nat, g': Table)
    requires Regranted(g, i, g')
    ensures Live(g') == Live(g) <==> forall k :: FirstFree(g[i := None]) < k < i ==> g[k].None?
  {
    hide Live, FirstFree, AddGrant, DropGrants, Matches;
    var j := FirstFree(g[i := None]);
    RegrantedSlot(g, i, g');
    if j == i {
      assert g' == g;
    } else {
      MovedForward(g, i, j, g');
    }
  }

  /** The grant has moved from slot `i` to the empty slot `j` before it. */
  lemma MovedForward(g: Table, i: nat, j: nat, g': Table)
    requires j < i < |g| && g[j].None? && g[i].Some? && g' == g[i := None][j := g[i]]
    requires forall k :: 0 <= k < |g| && k != i ==> !Matches(g[k], g[i].value.principal, g[i].value.base)
    ensures Live(g') == Live(g) <==> forall k :: j < k < i ==> g[k].None?
  {
    hide Live, Matches;
    var x, m := g[i].value, g[j + 1..i];
    LiveAround(g, j, i);
    LiveAround(g', j, i);
    assert g'[..j] == g[..j] && g'[j + 1..i] == m && g'[i + 1..] == g[i + 1..];
    LiveSlot(g[j]);
    LiveSlot(g[i]);
    var a, c := Live(g[..j]), Live(g[i + 1..]);
    assert Live(g) == a + Live(m) + [x] + c;
    assert Live(g') == a + [x] + Live(m) + c;
    NotBetween(g, i, j, m);
    MovedIsSame(a, Live(m), x, c);
    EmptyBetween(g, i, j, m);
  }

  lemma EmptyBetween(g: Table, i: nat, j: nat, m: Table)
    requires j < i < |g| && m == g[j + 1..i]
    ensures Live(m) == [] <==> forall k :: j < k < i ==> g[k].None?
  {
    hide Live;
    LiveFrom(m);
    assert forall k :: 0 <= k < |m| ==> m[k] == g[j + 1 + k];
    assert forall k :: j < k < i ==> g[k] == m[k - j - 1];
  }

  lemma NotBetween(g: Table, i: nat, j: nat, m: Table)
    requires j < i < |g| && g[i].Some? && m == g[j + 1..i]
    requires forall k :: 0 <= k < |g| && k != i ==> !Matches(g[k], g[i].value.principal, g[i].value.base)
    ensures g[i].value !in Live(m)
  {
    LiveFrom(m);
    forall n | 0 <= n < |Live(m)| ensures Live(m)[n] != g[i].value {
      var k :| 0 <= k < |m| && m[k] == Some(Live(m)[n]);
      assert !Matches(g[j + 1 + k], g[i].value.principal, g[i].value.base);
    }
  }

  /** An empty slot before another live grant: the regranted one comes to stand first. */
  lemma RegrantReorders(a: SizedGrant, b: SizedGrant, g': Table)
    requires !Matches(Some(a), b.principal, b.base) && Regranted([None, Some(a), Some(b)], 2, g')
    ensures Live([None, Some(a), Some(b)]) == [a, b] && Live(g') == [b, a] && a != b
  {
    var g: Table := [None, Some(a), Some(b)];
    RegrantedSlot(g, 2, g');
    assert FirstFree(g[2 := None]) == 0;
    assert g' == [Some(b), Some(a), None];
    LiveOfThree(None, Some(a), Some(b));
    LiveOfThree(Some(b), Some(a), None);
  }

  lemma LiveOfThree(x: Option<SizedGrant>, y: Option<SizedGrant>, z: Option<SizedGrant>)
    ensures Live([x, y, z]) == LiveOne(x) + LiveOne(y) + LiveOne(z)
  {
    var g0, g1, g2, g3: Table := [], [x], [x, y], [x, y, z];
    assert g1[..0] == g0 && g2[..1] == g1 && g3[..2] == g2;
    assert Live(g1) == Live(g0) + LiveOne(x);
    assert Live(g2) == Live(g1) + LiveOne(y);
    assert Live(g3) == Live(g2) + LiveOne(z);
  }

  function LiveOne(x: Option<SizedGrant>): seq<SizedGrant> { if x.Some? then [x.value] else [] }

  /** Then every certificate issued before verifies again. */
  lemma RegrantRevalidates(g: Table, i: nat, g': Table, p: Principal, page: nat)
    requires Regranted(g, i, g') && !IsReachable(g, p, page)
    requires forall k :: FirstFree(g[i := None]) < k < i ==> g[k].None?
    ensures Issue(g, p, page).Some? && Verify(g', Issue(g, p, page).value) == Valid && !IsReachable(g', p, page)
  {
    hide Live, FirstFree, Regranted, IsReachable;
    RegrantSameIff(g, i, g');
    SameGrantsStayValid(g, g', p, page);
  }

  /** A change of one word of the stream always makes the certificate stale. */
  lemma OneWordIsStale(g: Table, g': Table, p: Principal, page: nat, k: nat)
    requires !IsReachable(g, p, page) && |Live(g)| == |Live(g')| && k < |Stream(g)| == |Stream(g')|
    requires forall i :: 0 <= i < |Stream(g)| && i != k ==> Stream(g)[i] == Stream(g')[i]
    ensures Issue(g, p, page).Some? && (Verify(g', Issue(g, p, page).value) == Stale <==> Stream(g)[k] != Stream(g')[k])
  {
    hide MixAll, IsReachable, Stream, Live;
    OneWordShows(FNV_OFFSET, Stream(g), Stream(g'), k);
  }

  /** `y` is `x` with one field changed; the three parts of a device address are fields
      of their own, and so is the kind of a principal of number `n`, process `n` or the
      device `n`:0.0. */
  predicate OneFieldChanged(x: SizedGrant, y: SizedGrant) {
    || (x != y && (y == x.(base := y.base) || y == x.(len := y.len)
                   || y == x.(writable := y.writable) || y == x.(executable := y.executable)))
    || (x != y && y == x.(principal := y.principal) && OnePartChanged(x.principal, y.principal))
  }

  predicate OnePartChanged(p: Principal, q: Principal) {
    || (p.CpuProcess? && q.CpuProcess?)
    || (p.CpuProcess? && q == PciDevice(Bdf(p.id, 0, 0)))
    || (q.CpuProcess? && p == PciDevice(Bdf(q.id, 0, 0)))
    || (p.PciDevice? && q.PciDevice? && var b, c := p.bdf, q.bdf;
        c == b.(bus := c.bus) || c == b.(device := c.device) || c == b.(function_ := c.function_))
  }

  lemma OneFieldIsOneWord(x: SizedGrant, y: SizedGrant) returns (k: nat)
    requires OneFieldChanged(x, y)
    ensures k < 7 && Words(x)[k] != Words(y)[k] && forall i :: 0 <= i < 7 && i != k ==> Words(x)[i] == Words(y)[i]
  {
    if y == x.(base := y.base) { k := 3; }
    else if y == x.(len := y.len) { k := 4; }
    else if y == x.(writable := y.writable) { k := 5; }
    else if y == x.(executable := y.executable) { k := 6; }
    else if x.principal.CpuProcess? != y.principal.CpuProcess? { k := 0; }
    else if x.principal.CpuProcess? || x.principal.bdf.bus != y.principal.bdf.bus { k := 1; }
    else { k := 2; }
  }

  lemma {:induction false} LiveWordsSplit(a: seq<SizedGrant>, b: seq<SizedGrant>)
    ensures LiveWords(a + b) == LiveWords(a) + LiveWords(b)
    decreases |b|
  {
    hide Words;
    if b == [] {
      assert a + b == a;
    } else {
      assert (a + b)[..|a + b| - 1] == a + b[..|b| - 1];
      LiveWordsSplit(a, b[..|b| - 1]);
    }
  }

  lemma LiveWordsAround(xs: seq<SizedGrant>, j: nat)
    requires j < |xs|
    ensures LiveWords(xs) == LiveWords(xs[..j]) + Words(xs[j]) + LiveWords(xs[j + 1..])
  {
    hide LiveWords, Words;
    Around(xs, j);
    LiveWordsMiddle(xs[..j], xs[j], xs[j + 1..]);
  }

  lemma Around<T>(xs: seq<T>, j: nat)
    requires j < |xs|
    ensures xs == xs[..j] + [xs[j]] + xs[j + 1..]
  {
  }

  lemma LiveWordsMiddle(a: seq<SizedGrant>, x: SizedGrant, b: seq<SizedGrant>)
    ensures LiveWords(a + [x] + b) == LiveWords(a) + Words(x) + LiveWords(b)
  {
    hide LiveWords, Words;
    LiveWordsSplit(a + [x], b);
    LiveWordsSnoc(a, x);
  }

  lemma LiveWordsSnoc(xs: seq<SizedGrant>, x: SizedGrant)
    ensures LiveWords(xs + [x]) == LiveWords(xs) + Words(x)
  {
    hide Words;
    assert (xs + [x])[..|xs|] == xs;
  }

  /** Changing any one field of any one live grant makes the certificate stale. */
  lemma OneFieldIsStale(g: Table, g': Table, p: Principal, page: nat, j: nat)
    requires !IsReachable(g, p, page) && j < |Live(g)| == |Live(g')|
    requires forall i :: 0 <= i < |Live(g)| && i != j ==> Live(g)[i] == Live(g')[i]
    requires OneFieldChanged(Live(g)[j], Live(g')[j])
    ensures Issue(g, p, page).Some? && Verify(g', Issue(g, p, page).value) == Stale
  {
    hide MixAll, IsReachable, Words, OneFieldChanged, LiveWords;
    var xs, ys := Live(g), Live(g');
    StreamIsLive(g);
    StreamIsLive(g');
    LiveWordsAround(xs, j);
    LiveWordsAround(ys, j);
    assert xs[..j] == ys[..j] && xs[j + 1..] == ys[j + 1..];
    var k := OneFieldIsOneWord(xs[j], ys[j]);
    OneWordIsStale(g, g', p, page, |LiveWords(xs[..j])| + k);
  }

  // ----- The code ---------------------------------------------------------

  /** `checksum_graph`. */
  method ComputeChecksum(graph: array<Option<SizedGrant>>) returns (h: Word)
    ensures h == Checksum(graph[..])
  {
    hide Mix;
    h := FNV_OFFSET;
    ghost var g: Table := graph[..];
    for i := 0 to graph.Length
      invariant h == Checksum(g[..i])
    {
      assert g[..i + 1][..i] == g[..i];
      if graph[i].Some? {
        MixAllConcat(FNV_OFFSET, Stream(g[..i]), Words(graph[i].value));
        h := MixGrant(h, graph[i].value);
      } else {
        assert Stream(g[..i + 1]) == Stream(g[..i]);
      }
    }
    assert g[..graph.Length] == g;
  }

  method MixGrant(h0: Word, x: SizedGrant) returns (h: Word)
    ensures h == MixAll(h0, Words(x))
  {
    hide Mix;
    match x.principal {
      case CpuProcess(id) => h := Mix(Mix(Mix(h0, 0), id), 0);
      case PciDevice(b) => h := Mix(Mix(Mix(h0, 1), b.bus), b.device * 256 + b.function_);
    }
    ghost var ps := PrincipalWords(x.principal);
    MixThree(h0, ps);
    MixFour(h, x.base, x.len, BoolWord(x.writable), BoolWord(x.executable));
    MixAllConcat(h0, ps, [x.base, x.len, BoolWord(x.writable), BoolWord(x.executable)]);
    h := Mix(Mix(Mix(Mix(h, x.base), x.len), BoolWord(x.writable)), BoolWord(x.executable));
  }

  lemma MixThree(h: Word, ws: seq<Word>)
    requires |ws| == 3
    ensures MixAll(h, ws) == Mix(Mix(Mix(h, ws[0]), ws[1]), ws[2])
  {
    hide Mix;
    assert MixAll(h, ws[..1]) == Mix(h, ws[0]) by { assert ws[..1][..0] == []; }
    assert MixAll(h, ws[..2]) == Mix(MixAll(h, ws[..1]), ws[1]) by { assert ws[..2][..1] == ws[..1]; }
  }

  lemma MixFour(h: Word, a: Word, b: Word, c: Word, d: Word)
    ensures MixAll(h, [a, b, c, d]) == Mix(Mix(Mix(Mix(h, a), b), c), d)
  {
    hide Mix;
    assert [a, b, c, d][..3] == [a, b, c];
    MixThree(h, [a, b, c]);
  }
}
