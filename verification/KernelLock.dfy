/** The recursive kernel-wide lock: an owner word taken by compare-and-swap and a
    nesting depth per core index.

    Each load, store, compare-and-swap and counter update of `acquire` and `release`
    is one step, and the steps of any number of cores interleave freely.  Memory is
    sequentially consistent here.  A core may call `release` without a matching
    `acquire`; the code counts that and ignores it, and so does the model. */
module KernelLock {

  const MAX_CPUS: nat := 32

  /** The index a core uses: its own, clamped to the table. */
  function Clamp(index: nat): (i: nat)
    ensures i < MAX_CPUS
  {
    if index < MAX_CPUS then index else MAX_CPUS - 1
  }

  /** Where a core is in `acquire` or `release`. */
  datatype Pc =
    | Idle
    | AcqLoaded(d: nat)   // depth loaded
    | Spinning            // depth was 0: trying to swap -1 for its index
    | Won                 // swapped; depth still 0
    | Entered             // depth stored 1; counter not yet bumped
    | RelLoaded(d: nat)   // depth loaded
    | Cleared             // depth stored 0; owner still its index
    | Freed               // owner stored -1; counter not yet bumped

  /** `nest[c]` is how many sections core `c` is inside: returned `acquire`s less
      matched `release` calls. */
  datatype Lock = Lock(owner: int, depth: seq<nat>, acquires: nat, releases: nat, unbalanced: nat,
                       pc: seq<Pc>, nest: seq<nat>)

  datatype Action =
    | CallAcquire(c: nat)
    | CallRelease(c: nat)
    | Continue(c: nat, spurious: bool)   // a weak compare-and-swap may fail for no reason

  /** Indices of the cores; the lock only ever sees them clamped. */
  type Cores = seq<nat>

  predicate Shape(cores: Cores, s: Lock) { |s.depth| == MAX_CPUS && |s.pc| == |cores| && |s.nest| == |cores| }

  predicate Enabled(cores: Cores, s: Lock, a: Action) {
    && Shape(cores, s) && a.c < |cores|
    && match a
       case CallAcquire(c) => s.pc[c].Idle?
       case CallRelease(c) => s.pc[c].Idle?
       case Continue(c, _) => !s.pc[c].Idle?
  }

  function Set(s: Lock, c: nat, pc: Pc): Lock
    requires c < |s.pc|
  {
    s.(pc := s.pc[c := pc])
  }

  function Do(cores: Cores, s: Lock, a: Action): Lock
    requires Enabled(cores, s, a)
  {
    var c, me := a.c, Clamp(cores[a.c]);
    match a
    case CallAcquire(_) => Set(s, c, AcqLoaded(s.depth[me]))
    case CallRelease(_) =>
      Set(s, c, RelLoaded(s.depth[me])).(nest := s.nest[c := if s.nest[c] == 0 then 0 else s.nest[c] - 1])
    case Continue(_, spurious) =>
      match s.pc[c]
      case AcqLoaded(d) =>
        if d > 0 then Set(s, c, Idle).(depth := s.depth[me := d + 1], nest := s.nest[c := s.nest[c] + 1])
        else Set(s, c, Spinning)
      case Spinning => if s.owner == -1 && !spurious then Set(s, c, Won).(owner := me) else s
      case Won => Set(s, c, Entered).(depth := s.depth[me := 1])
      case Entered => Set(s, c, Idle).(acquires := s.acquires + 1, nest := s.nest[c := s.nest[c] + 1])
      case RelLoaded(d) =>
        if d == 0 then Set(s, c, Idle).(unbalanced := s.unbalanced + 1)
        else if d == 1 then Set(s, c, Cleared).(depth := s.depth[me := 0])
        else Set(s, c, Idle).(depth := s.depth[me := d - 1])
      case Cleared => Set(s, c, Freed).(owner := -1)
      case Freed => Set(s, c, Idle).(releases := s.releases + 1)
      case Idle => s
  }

  function Init(cores: Cores): Lock {
    Lock(-1, seq(MAX_CPUS, _ => 0), 0, 0, 0, seq(|cores|, _ => Idle), seq(|cores|, _ => 0))
  }

  ghost predicate Runs(cores: Cores, s: Lock, as_: seq<Action>, s': Lock)
    decreases |as_|
  {
    if as_ == [] then s' == s else Enabled(cores, s, as_[0]) && Runs(cores, Do(cores, s, as_[0]), as_[1..], s')
  }

  ghost predicate Reachable(cores: Cores, s: Lock) { exists as_ :: Runs(cores, Init(cores), as_, s) }

  ghost predicate Distinct(cores: Cores) {
    forall c, e :: 0 <= c < e < |cores| ==> Clamp(cores[c]) != Clamp(cores[e])
  }

  predicate Inside(s: Lock, c: nat) { c < |s.nest| && s.nest[c] > 0 }

  ghost predicate AtMostOneInside(s: Lock) { forall c, e :: Inside(s, c) && Inside(s, e) ==> c == e }

  // ----- Invariant --------------------------------------------------------

  /** Core `c` is between a won swap and the store that gives the lock up. */
  predicate Owns(s: Lock, c: nat)
    requires c < |s.pc| == |s.nest|
  {
    s.nest[c] > 0 || s.pc[c].Won? || s.pc[c].Entered? || s.pc[c].Cleared? || (s.pc[c].RelLoaded? && s.pc[c].d > 0)
  }

  ghost predicate CoreInv(cores: Cores, s: Lock, c: nat)
    requires Shape(cores, s) && c < |cores|
  {
    var d, n := s.depth[Clamp(cores[c])], s.nest[c];
    && (Owns(s, c) <==> s.owner == Clamp(cores[c]))
    && match s.pc[c]
       case Idle => d == n
       case AcqLoaded(x) => x == d == n
       case Spinning => d == n == 0
       case Won => d == n == 0
       case Entered => d == 1 && n == 0
       case RelLoaded(x) => x == d && n == (if d == 0 then 0 else d - 1)
       case Cleared => d == n == 0
       case Freed => d == n == 0
  }

  function Ones(pc: seq<Pc>, p: Pc -> bool): nat {
    if pc == [] then 0 else Ones(pc[..|pc| - 1], p) + if p(pc[|pc| - 1]) then 1 else 0
  }

  function Taking(): Pc -> bool { (x: Pc) => x.Won? || x.Entered? }
  function Leaving(): Pc -> bool { (x: Pc) => x.Freed? }

  ghost predicate Inv(cores: Cores, s: Lock) {
    && Shape(cores, s)
    && (forall c :: 0 <= c < |cores| ==> CoreInv(cores, s, c))
    && (s.owner != -1 ==> exists c :: 0 <= c < |cores| && Owns(s, c))
    && s.acquires + Ones(s.pc, Taking()) == s.releases + Ones(s.pc, Leaving()) + if s.owner == -1 then 0 else 1
  }

  lemma {:induction false} OnesUpdate(pc: seq<Pc>, p: Pc -> bool, c: nat, x: Pc)
    requires c < |pc|
    ensures Ones(pc[c := x], p) == Ones(pc, p) - (if p(pc[c]) then 1 else 0) + if p(x) then 1 else 0
  {
    var init := pc[..|pc| - 1];
    if c < |init| {
      OnesUpdate(init, p, c, x);
      assert pc[c := x][..|pc| - 1] == init[c := x];
    } else {
      assert pc[c := x][..|pc| - 1] == init;
    }
  }

  lemma {:induction false} OnesNone(pc: seq<Pc>, p: Pc -> bool)
    requires forall c :: 0 <= c < |pc| ==> !p(pc[c])
    ensures Ones(pc, p) == 0
  {
    if pc != [] { OnesNone(pc[..|pc| - 1], p); }
  }

  lemma InitInv(cores: Cores)
    ensures Inv(cores, Init(cores))
  {
    OnesNone(Init(cores).pc, Taking());
    OnesNone(Init(cores).pc, Leaving());
  }

  /** What a step does to the core that takes it. */
  lemma StepSelf(cores: Cores, s: Lock, a: Action)
    requires Distinct(cores) && Inv(cores, s) && Enabled(cores, s, a)
    ensures CoreInv(cores, Do(cores, s, a), a.c)
  {
    hide Ones;
    assert CoreInv(cores, s, a.c);
  }

  /** Nothing of another core's changes, and neither taking nor giving up the lock is its. */
  lemma StepFrame(cores: Cores, s: Lock, a: Action, e: nat)
    requires Distinct(cores) && Inv(cores, s) && Enabled(cores, s, a) && e < |cores| && e != a.c
    ensures var s', me := Do(cores, s, a), Clamp(cores[e]);
            && Shape(cores, s') && s'.pc[e] == s.pc[e] && s'.nest[e] == s.nest[e] && s'.depth[me] == s.depth[me]
            && (s'.owner == me <==> s.owner == me)
  {
    hide Ones;
    assert CoreInv(cores, s, a.c);
    assert Clamp(cores[e]) != Clamp(cores[a.c]);
  }

  /** What a step does to any other core. */
  lemma StepOther(cores: Cores, s: Lock, a: Action, e: nat)
    requires Distinct(cores) && Inv(cores, s) && Enabled(cores, s, a) && e < |cores| && e != a.c
    ensures CoreInv(cores, Do(cores, s, a), e)
  {
    hide Do, Ones;
    StepFrame(cores, s, a, e);
    assert CoreInv(cores, s, e);
  }

  lemma StepCount(cores: Cores, s: Lock, a: Action)
    requires Distinct(cores) && Inv(cores, s) && Enabled(cores, s, a)
    ensures var s' := Do(cores, s, a);
            s'.acquires + Ones(s'.pc, Taking()) == s'.releases + Ones(s'.pc, Leaving()) + if s'.owner == -1 then 0 else 1
  {
    var s' := Do(cores, s, a);
    assert CoreInv(cores, s, a.c);
    OnesUpdate(s.pc, Taking(), a.c, s'.pc[a.c]);
    OnesUpdate(s.pc, Leaving(), a.c, s'.pc[a.c]);
    assert s'.pc == s.pc[a.c := s'.pc[a.c]];
  }

  lemma StepOwner(cores: Cores, s: Lock, a: Action)
    requires Distinct(cores) && Inv(cores, s) && Enabled(cores, s, a)
    ensures var s' := Do(cores, s, a); s'.owner != -1 ==> exists c :: 0 <= c < |cores| && Owns(s', c)
  {
    hide Ones;
    var s' := Do(cores, s, a);
    if s'.owner != -1 {
      if Owns(s', a.c) {
      } else {
        assert CoreInv(cores, s, a.c);
        StepSelf(cores, s, a);
        var c :| 0 <= c < |cores| && Owns(s, c);
        assert c != a.c;
        assert Owns(s', c);
      }
    }
  }

  lemma StepInv(cores: Cores, s: Lock, a: Action)
    requires Distinct(cores) && Inv(cores, s) && Enabled(cores, s, a)
    ensures Inv(cores, Do(cores, s, a))
  {
    hide Ones;
    StepSelf(cores, s, a);
    StepCount(cores, s, a);
    StepOwner(cores, s, a);
    forall e | 0 <= e < |cores| ensures CoreInv(cores, Do(cores, s, a), e) {
      if e != a.c { StepOther(cores, s, a, e); }
    }
  }

  lemma {:induction false} RunInv(cores: Cores, s: Lock, as_: seq<Action>, s': Lock)
    requires Distinct(cores) && Inv(cores, s) && Runs(cores, s, as_, s')
    ensures Inv(cores, s')
    decreases |as_|
  {
    hide Inv, Do, Enabled;
    if as_ != [] {
      StepInv(cores, s, as_[0]);
      RunInv(cores, Do(cores, s, as_[0]), as_[1..], s');
    }
  }

  lemma ReachableInv(cores: Cores, s: Lock)
    requires Distinct(cores) && Reachable(cores, s)
    ensures Inv(cores, s)
  {
    hide Inv;
    var as_ :| Runs(cores, Init(cores), as_, s);
    InitInv(cores);
    RunInv(cores, Init(cores), as_, s);
  }

  // ----- What the lock promises -------------------------------------------

  /** The cores' own numbers are pairwise different, and at most one of them is past the
      table or at its last place. */
  ghost predicate Separate(cores: Cores) {
    && (forall c, e :: 0 <= c < e < |cores| ==> cores[c] != cores[e])
    && (forall c, e :: 0 <= c < e < |cores| ==> cores[c] < 31 || cores[e] < 31)
  }

  lemma SeparateIsDistinct(cores: Cores)
    ensures Separate(cores) <==> Distinct(cores)
  {
    if Separate(cores) {
      forall c, e | 0 <= c < e < |cores| ensures Clamp(cores[c]) != Clamp(cores[e]) {
        assert cores[c] != cores[e] && (cores[c] < 31 || cores[e] < 31);
      }
    } else {
      var c, e :| 0 <= c < e < |cores| && (cores[c] == cores[e] || (cores[c] >= 31 && cores[e] >= 31));
      assert Clamp(cores[c]) == Clamp(cores[e]);
    }
  }

  /** While a core is inside any section, however deeply nested, the owner word is its
      own: no nested release gives the lock up. */
  lemma InsideMeansOwner(cores: Cores, s: Lock, c: nat)
    requires Separate(cores) && Reachable(cores, s) && Inside(s, c)
    ensures c < |cores| && s.owner == if cores[c] < 32 then cores[c] else 31
  {
    SeparateIsDistinct(cores);
    ReachableInv(cores, s);
    assert CoreInv(cores, s, c);
  }

  /** A release by a core that is inside no section is counted and changes nothing else. */
  lemma StrayReleaseIsCounted(cores: Cores, s: Lock, c: nat, spurious: bool)
    requires Separate(cores) && Reachable(cores, s) && c < |cores| && Enabled(cores, s, CallRelease(c)) && !Inside(s, c)
    ensures var s1 := Do(cores, s, CallRelease(c));
            && Enabled(cores, s1, Continue(c, spurious))
            && Do(cores, s1, Continue(c, spurious)) == s.(unbalanced := s.unbalanced + 1)
  {
    SeparateIsDistinct(cores);
    ReachableInv(cores, s);
    assert CoreInv(cores, s, c);
    var s1 := Do(cores, s, CallRelease(c));
    assert s.nest[c := 0] == s.nest && s1.pc[c := Idle] == s.pc;
  }

  lemma MutualExclusion(cores: Cores, s: Lock)
    requires Separate(cores) && Reachable(cores, s)
    ensures AtMostOneInside(s)
  {
    forall c: nat, e: nat | Inside(s, c) && Inside(s, e) ensures c == e {
      InsideMeansOwner(cores, s, c);
      InsideMeansOwner(cores, s, e);
    }
  }

  ghost predicate Quiet(s: Lock) { forall c :: 0 <= c < |s.pc| ==> s.pc[c].Idle? }

  /** With no core mid-operation, the two counters differ by one exactly when some core
      is inside a section, and then the lock is held; else they agree and it is free. */
  lemma CountersBalance(cores: Cores, s: Lock)
    requires Separate(cores) && Reachable(cores, s) && Quiet(s)
    ensures s.acquires == s.releases + if s.owner == -1 then 0 else 1
    ensures s.owner != -1 <==> exists c :: Inside(s, c)
  {
    SeparateIsDistinct(cores);
    ReachableInv(cores, s);
    OnesNone(s.pc, Taking());
    OnesNone(s.pc, Leaving());
    if c: nat :| Inside(s, c) { assert CoreInv(cores, s, c); }
    if s.owner != -1 {
      var c :| 0 <= c < |cores| && Owns(s, c);
      assert Inside(s, c);
    }
  }

  /** `n` steps of core `c`. */
  ghost predicate Steps(cores: Cores, s: Lock, c: nat, n: nat, s': Lock)
    decreases n
  {
    if n == 0 then s' == s
    else Enabled(cores, s, Continue(c, false)) && Steps(cores, Do(cores, s, Continue(c, false)), c, n - 1, s')
  }

  /** With the lock free, a core that calls `acquire` and is left to itself is inside after
      four more steps, and then the lock is its own. */
  lemma FreeLockIsTaken(cores: Cores, s: Lock, c: nat, s': Lock)
    requires Separate(cores) && Reachable(cores, s) && s.owner == -1 && c < |cores| && Enabled(cores, s, CallAcquire(c))
    requires s' == s.(owner := if cores[c] < 32 then cores[c] else 31, acquires := s.acquires + 1, nest := s.nest[c := 1],
                      depth := s.depth[(if cores[c] < 32 then cores[c] else 31) := 1])
    ensures Steps(cores, Do(cores, s, CallAcquire(c)), c, 4, s')
  {
    SeparateIsDistinct(cores);
    ReachableInv(cores, s);
    assert CoreInv(cores, s, c);
    var s1 := Do(cores, s, CallAcquire(c));
    var s2 := Do(cores, s1, Continue(c, false));
    var s3 := Do(cores, s2, Continue(c, false));
    var s4 := Do(cores, s3, Continue(c, false));
    var s5 := Do(cores, s4, Continue(c, false));
    assert s5.pc == s.pc;
    StepsFour(cores, s1, s2, s3, s4, s5, c);
  }

  lemma StepsFour(cores: Cores, s1: Lock, s2: Lock, s3: Lock, s4: Lock, s5: Lock, c: nat)
    requires Enabled(cores, s1, Continue(c, false)) && s2 == Do(cores, s1, Continue(c, false))
    requires Enabled(cores, s2, Continue(c, false)) && s3 == Do(cores, s2, Continue(c, false))
    requires Enabled(cores, s3, Continue(c, false)) && s4 == Do(cores, s3, Continue(c, false))
    requires Enabled(cores, s4, Continue(c, false)) && s5 == Do(cores, s4, Continue(c, false))
    ensures Steps(cores, s1, c, 4, s5)
  {
    hide Do, Enabled;
    assert Steps(cores, s4, c, 1, s5);
    assert Steps(cores, s3, c, 2, s5);
    assert Steps(cores, s2, c, 3, s5);
  }

  /** A core inside one section that calls `release` and is left to itself has freed the lock
      after three more steps. */
  lemma LastReleaseFrees(cores: Cores, s: Lock, c: nat, s': Lock)
    requires Separate(cores) && Reachable(cores, s) && c < |cores| && Enabled(cores, s, CallRelease(c)) && s.nest[c] == 1
    requires s' == s.(owner := -1, releases := s.releases + 1, nest := s.nest[c := 0],
                      depth := s.depth[(if cores[c] < 32 then cores[c] else 31) := 0])
    ensures Steps(cores, Do(cores, s, CallRelease(c)), c, 3, s')
  {
    SeparateIsDistinct(cores);
    ReachableInv(cores, s);
    assert CoreInv(cores, s, c);
    var s1 := Do(cores, s, CallRelease(c));
    var s2 := Do(cores, s1, Continue(c, false));
    var s3 := Do(cores, s2, Continue(c, false));
    var s4 := Do(cores, s3, Continue(c, false));
    assert s4.pc == s.pc;
    StepsThree(cores, s1, s2, s3, s4, c);
  }

  lemma StepsThree(cores: Cores, s1: Lock, s2: Lock, s3: Lock, s4: Lock, c: nat)
    requires Enabled(cores, s1, Continue(c, false)) && s2 == Do(cores, s1, Continue(c, false))
    requires Enabled(cores, s2, Continue(c, false)) && s3 == Do(cores, s2, Continue(c, false))
    requires Enabled(cores, s3, Continue(c, false)) && s4 == Do(cores, s3, Continue(c, false))
    ensures Steps(cores, s1, c, 3, s4)
  {
    hide Do, Enabled;
    assert Steps(cores, s3, c, 1, s4);
    assert Steps(cores, s2, c, 2, s4);
  }

  // ----- And exactly when -------------------------------------------------

  /** If two cores have the same number, or numbers of 31 and more, a run puts both inside at
      once. */
  lemma SharedIndexBreaks(cores: Cores, c: nat, e: nat) returns (s: Lock)
    requires c < |cores| && e < |cores| && c != e
    requires cores[c] == cores[e] || (cores[c] >= 31 && cores[e] >= 31)
    ensures Reachable(cores, s) && Inside(s, c) && Inside(s, e)
  {
    var go := Continue(c, false);
    var s0 := Init(cores);
    var s1 := Do(cores, s0, CallAcquire(c));
    var s2 := Do(cores, s1, go);                  // depth was 0: spin
    var s3 := Do(cores, s2, go);                  // swap
    var s4 := Do(cores, s3, go);                  // depth 1
    var s5 := Do(cores, s4, go);                  // inside
    var s6 := Do(cores, s5, CallAcquire(e));      // loads depth 1
    s := Do(cores, s6, Continue(e, false));       // takes itself for nested
    assert Runs(cores, s, [], s);
    RunsStep(cores, s6, Continue(e, false), [], s);
    var as6 := [Continue(e, false)];
    RunsStep(cores, s5, CallAcquire(e), as6, s);
    var as5 := [CallAcquire(e)] + as6;
    RunsStep(cores, s4, go, as5, s);
    var as4 := [go] + as5;
    RunsStep(cores, s3, go, as4, s);
    var as3 := [go] + as4;
    RunsStep(cores, s2, go, as3, s);
    var as2 := [go] + as3;
    RunsStep(cores, s1, go, as2, s);
    var as1 := [go] + as2;
    RunsStep(cores, s0, CallAcquire(c), as1, s);
  }

  lemma RunsStep(cores: Cores, s: Lock, a: Action, as_: seq<Action>, s': Lock)
    requires Enabled(cores, s, a) && Runs(cores, Do(cores, s, a), as_, s')
    ensures Runs(cores, s, [a] + as_, s')
  {
    assert ([a] + as_)[1..] == as_;
  }

  /** The lock excludes, in every reachable state, exactly when the cores' numbers are
      pairwise different and at most one of them is 31 or more. */
  lemma ExcludesIffDistinct(cores: Cores)
    ensures (forall s :: Reachable(cores, s) ==> AtMostOneInside(s)) <==>
            forall c, e :: 0 <= c < e < |cores| ==> cores[c] != cores[e] && (cores[c] < 31 || cores[e] < 31)
  {
    if Separate(cores) {
      forall s | Reachable(cores, s) ensures AtMostOneInside(s) {
        MutualExclusion(cores, s);
      }
    } else {
      var c, e :| 0 <= c < e < |cores| && (cores[c] == cores[e] || (cores[c] >= 31 && cores[e] >= 31));
      var s := SharedIndexBreaks(cores, c, e);
      assert !AtMostOneInside(s);
    }
  }
}
