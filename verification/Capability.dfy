/** Capabilities: per-process tables of (object, rights, generation), a global
    object table, revocation by bumping the object's generation, and derivation of
    weaker capabilities.

    The first part is the code's own tables and methods.  The second part runs any
    number of threads over them, with a derivation's check and its push as separate
    steps, and proves what revocation and attenuation promise over whole runs. */
module Capability {
  import opened Options

  // ----- Rights -----------------------------------------------------------

  type Rights = bv32

  const GRANT: Rights := 4

  predicate Contains(r: Rights, other: Rights) { r & other == other }

  /** A mask of one right. */
  predicate OneRight(bit: Rights) { bit != 0 && bit & (bit - 1) == 0 }

  /** Every right of `wanted`, taken one by one, is among `held`. */
  ghost predicate Covers(held: Rights, wanted: Rights) {
    forall bit: Rights | OneRight(bit) && wanted & bit != 0 :: held & bit != 0
  }

  /** The lowest right that is missing. */
  function Missing(r: Rights, other: Rights): Rights { (other & !r) & (0 - (other & !r)) }

  lemma MissingIsOne(r: Rights, other: Rights)
    requires r & other != other
    ensures OneRight(Missing(r, other))
  {
  }

  lemma MissingIsWanted(r: Rights, other: Rights)
    requires r & other != other
    ensures other & Missing(r, other) != 0 && r & Missing(r, other) == 0
  {
  }

  /** The mask comparison is the comparison right by right. */
  lemma ContainsIsCovers(r: Rights, other: Rights)
    ensures Contains(r, other) <==> Covers(r, other)
  {
    hide Contains, OneRight, Covers;
    if Contains(r, other) {
      ContainsCovers(r, other);
    } else {
      NotCovered(r, other);
    }
  }

  lemma ContainsCovers(r: Rights, other: Rights)
    requires Contains(r, other)
    ensures Covers(r, other)
  {
    hide Contains, OneRight;
    forall bit: Rights | OneRight(bit) && other & bit != 0 ensures r & bit != 0 { RightKept(r, other, bit); }
  }

  lemma NotCovered(r: Rights, other: Rights)
    requires !Contains(r, other)
    ensures !Covers(r, other)
  {
    hide OneRight, Missing;
    MissingIsOne(r, other);
    MissingIsWanted(r, other);
  }

  lemma RightKept(r: Rights, other: Rights, bit: Rights)
    requires Contains(r, other) && other & bit != 0
    ensures r & bit != 0
  {
  }

  lemma ContainsTrans(a: Rights, b: Rights, c: Rights)
    requires Contains(a, b) && Contains(b, c)
    ensures Contains(a, c)
  {
  }

  // ----- Tables -----------------------------------------------------------

  datatype Object = Object(generation: nat, alive: bool)

  datatype Cap = Cap(object_id: nat, rights: Rights, generation: nat)

  datatype CapError = NoSuchCapability | InsufficientRights | Revoked | AttenuationViolation

  datatype Result<+T> = Ok(value: T) | Err(error: CapError)

  /** The generation a live object has now. */
  function CurrentGeneration(objects: seq<Object>, id: nat): Option<nat> {
    if id < |objects| && objects[id].alive then Some(objects[id].generation) else None
  }

  /** The generation a grant copies: 0 for an object that does not exist. */
  function GenerationForGrant(objects: seq<Object>, id: nat): nat {
    if id < |objects| then objects[id].generation else 0
  }

  function ResolveCap(objects: seq<Object>, slot: Option<Cap>, required: Rights): Result<Cap> {
    match slot
    case None => Err(NoSuchCapability)
    case Some(cap) =>
      if CurrentGeneration(objects, cap.object_id) != Some(cap.generation) then Err(Revoked)
      else if Contains(cap.rights, required) then Ok(cap)
      else Err(InsufficientRights)
  }

  // ----- What the answers mean --------------------------------------------

  /** The capability is of the generation its object, still alive, has now. */
  predicate Current(objects: seq<Object>, cap: Cap) {
    cap.object_id < |objects| && objects[cap.object_id].alive && objects[cap.object_id].generation == cap.generation
  }

  /** Access is given exactly for a current capability with every right asked for, and each
      refusal has its own reason. */
  ghost predicate Answers(objects: seq<Object>, slot: Option<Cap>, required: Rights, r: Result<Cap>) {
    && (r.Ok? <==> slot.Some? && Current(objects, slot.value) && Covers(slot.value.rights, required))
    && (r.Ok? ==> r.value == slot.value)
    && (r == Err(NoSuchCapability) <==> slot.None?)
    && (r == Err(Revoked) <==> slot.Some? && !Current(objects, slot.value))
    && (r == Err(InsufficientRights) <==>
          slot.Some? && Current(objects, slot.value) && !Covers(slot.value.rights, required))
  }

  lemma ResolveAnswers(objects: seq<Object>, slot: Option<Cap>, required: Rights)
    ensures Answers(objects, slot, required, ResolveCap(objects, slot, required))
  {
    hide Contains, Covers;
    if slot.Some? { ContainsIsCovers(slot.value.rights, required); }
  }

  /** A derivation succeeds exactly from a current capability that may grant, bit 2 of its
      rights, and has every right asked for; it makes a capability to the same object with
      the rights asked for. */
  ghost predicate DeriveAnswers(objects: seq<Object>, slot: Option<Cap>, requested: Rights, r: Result<Cap>) {
    && (r.Ok? <==> slot.Some? && Current(objects, slot.value) && slot.value.rights & 4 != 0
                   && Covers(slot.value.rights, requested))
    && (r.Ok? ==> r.value == Cap(slot.value.object_id, requested, slot.value.generation))
    && (r == Err(NoSuchCapability) <==> slot.None?)
    && (r == Err(Revoked) <==> slot.Some? && !Current(objects, slot.value))
    && (r == Err(InsufficientRights) <==> slot.Some? && Current(objects, slot.value) && slot.value.rights & 4 == 0)
    && (r == Err(AttenuationViolation) <==> slot.Some? && Current(objects, slot.value) && slot.value.rights & 4 != 0
                                            && !Covers(slot.value.rights, requested))
  }

  lemma GrantBit(r: Rights)
    ensures Contains(r, GRANT) <==> r & 4 != 0
  {
  }

  lemma CheckDeriveAnswers(objects: seq<Object>, slot: Option<Cap>, requested: Rights)
    ensures DeriveAnswers(objects, slot, requested, CheckDerive(objects, slot, requested))
  {
    hide Contains, Covers;
    if slot.Some? {
      ContainsIsCovers(slot.value.rights, requested);
      GrantBit(slot.value.rights);
    }
  }

  function SlotAt(slots: seq<Option<Cap>>, i: nat): Option<Cap> { if i < |slots| then slots[i] else None }

  /** A derivation's check: what it will push, or why not. */
  function CheckDerive(objects: seq<Object>, slot: Option<Cap>, requested: Rights): Result<Cap> {
    match ResolveCap(objects, slot, GRANT)
    case Err(e) => Err(e)
    case Ok(source) =>
      if Contains(source.rights, requested) then Ok(Cap(source.object_id, requested, source.generation))
      else Err(AttenuationViolation)
  }

  function BumpGeneration(objects: seq<Object>, id: nat, destroy: bool): seq<Object> {
    if id < |objects|
    then objects[id := Object(objects[id].generation + 1, objects[id].alive && !destroy)]
    else objects
  }

  class ObjectTable {
    var objects: seq<Object>

    constructor ()
      ensures objects == []
    {
      objects := [];
    }

    method CreateObject() returns (id: nat)
      modifies this
      ensures objects == old(objects) + [Object(1, true)] && id == |old(objects)|
    {
      id := |objects|;
      objects := objects + [Object(1, true)];
    }

    method Revoke(id: nat, destroy: bool)
      modifies this
      ensures objects == BumpGeneration(old(objects), id, destroy)
    {
      if id < |objects| {
        var obj := objects[id];
        objects := objects[id := obj.(generation := obj.generation + 1)];
        if destroy {
          objects := objects[id := objects[id].(alive := false)];
        }
      }
    }
  }

  class CapabilityTable {
    var slots: seq<Option<Cap>>

    constructor ()
      ensures slots == []
    {
      slots := [];
    }

    method Grant(world: ObjectTable, id: nat, rights: Rights) returns (capId: nat)
      modifies this
      ensures slots == old(slots) + [Some(Cap(id, rights, GenerationForGrant(world.objects, id)))]
      ensures capId == |old(slots)|
    {
      var generation := if id < |world.objects| then world.objects[id].generation else 0;
      capId := |slots|;
      slots := slots + [Some(Cap(id, rights, generation))];
    }

    method Resolve(world: ObjectTable, capId: nat, required: Rights) returns (r: Result<Cap>)
      ensures r == ResolveCap(world.objects, SlotAt(slots, capId), required)
      ensures Answers(world.objects, if capId < |slots| then slots[capId] else None, required, r)
    {
      ResolveAnswers(world.objects, SlotAt(slots, capId), required);
      if capId >= |slots| || slots[capId].None? { return Err(NoSuchCapability); }
      var cap := slots[capId].value;
      var live := cap.object_id < |world.objects| && world.objects[cap.object_id].alive;
      if live && world.objects[cap.object_id].generation == cap.generation {
        return if Contains(cap.rights, required) then Ok(cap) else Err(InsufficientRights);
      }
      return Err(Revoked);
    }

    /** `target` may be this very table. */
    method Derive(world: ObjectTable, source: nat, requested: Rights, target: CapabilityTable) returns (r: Result<nat>)
      modifies target
      ensures match CheckDerive(world.objects, old(SlotAt(slots, source)), requested)
              case Err(e) => r == Err(e) && target.slots == old(target.slots)
              case Ok(cap) => r == Ok(|old(target.slots)|) && target.slots == old(target.slots) + [Some(cap)]
      ensures var slot := if source < |old(slots)| then old(slots)[source] else None;
              DeriveAnswers(world.objects, slot, requested,
                            if r.Err? then Err(r.error) else Ok(Cap(slot.value.object_id, requested, slot.value.generation)))
    {
      CheckDeriveAnswers(world.objects, SlotAt(slots, source), requested);
      var found := Resolve(world, source, GRANT);
      if found.Err? { return Err(found.error); }
      if !Contains(found.value.rights, requested) { return Err(AttenuationViolation); }
      var cap := Cap(found.value.object_id, requested, found.value.generation);
      r := Ok(|target.slots|);
      target.slots := target.slots + [Some(cap)];
    }
  }

  // ----- Many threads -----------------------------------------------------

  /** Where a capability came from; `born` is when it was pushed. */
  datatype Origin = Granted | Derived(table: nat, slot: nat)
  datatype Slot = Slot(cap: Cap, origin: Origin, born: nat)

  /** A derivation that has passed its check and not yet pushed. */
  datatype Pending = Pending(cap: Cap, origin: Origin, target: nat)

  datatype Sys = Sys(objects: seq<Object>, tables: seq<seq<Slot>>, pending: map<nat, Pending>, clock: nat)

  predicate Has(s: Sys, t: nat, i: nat) { t < |s.tables| && i < |s.tables[t]| }

  function CapAt(s: Sys, t: nat, i: nat): Option<Cap> { if Has(s, t, i) then Some(s.tables[t][i].cap) else None }

  function Resolve(s: Sys, t: nat, i: nat, required: Rights): Result<Cap> {
    ResolveCap(s.objects, CapAt(s, t, i), required)
  }

  function Push(s: Sys, t: nat, cap: Cap, origin: Origin): Sys
    requires t < |s.tables|
  {
    s.(tables := s.tables[t := s.tables[t] + [Slot(cap, origin, s.clock)]], clock := s.clock + 1)
  }

  datatype Event =
    | Create
    | NewTable
    | Revoke(id: nat, destroy: bool)
    | Grant(t: nat, id: nat, rights: Rights)
    | DeriveCheck(thread: nat, t: nat, i: nat, requested: Rights, target: nat)
    | DerivePush(thread: nat)

  predicate Allowed(s: Sys, e: Event) {
    match e
    case Grant(t, _, _) => t < |s.tables|
    case DeriveCheck(thread, _, _, _, target) => thread !in s.pending && target < |s.tables|
    case DerivePush(thread) => thread in s.pending && s.pending[thread].target < |s.tables|
    case _ => true
  }

  function Apply(s: Sys, e: Event): Sys
    requires Allowed(s, e)
  {
    match e
    case Create => s.(objects := s.objects + [Object(1, true)])
    case NewTable => s.(tables := s.tables + [[]])
    case Revoke(id, destroy) => s.(objects := BumpGeneration(s.objects, id, destroy))
    case Grant(t, id, rights) => Push(s, t, Cap(id, rights, GenerationForGrant(s.objects, id)), Granted)
    case DeriveCheck(thread, t, i, requested, target) =>
      (match CheckDerive(s.objects, CapAt(s, t, i), requested)
       case Err(_) => s
       case Ok(cap) => s.(pending := s.pending[thread := Pending(cap, Derived(t, i), target)]))
    case DerivePush(thread) =>
      var p := s.pending[thread];
      Push(s.(pending := s.pending - {thread}), p.target, p.cap, p.origin)
  }

  ghost predicate Runs(s: Sys, es: seq<Event>, s': Sys)
    decreases |es|
  {
    if es == [] then s' == s else Allowed(s, es[0]) && Runs(Apply(s, es[0]), es[1..], s')
  }

  const Boot: Sys := Sys([], [], map[], 0)

  // ----- Invariant --------------------------------------------------------

  /** No capability is from a generation its object has not reached. */
  predicate NotAhead(objects: seq<Object>, cap: Cap) {
    if cap.object_id < |objects| then cap.generation <= objects[cap.object_id].generation else cap.generation == 0
  }

  /** `cap` was derived from the slot `origin` names: same object and generation,
      rights the source had, and the source could delegate. */
  predicate WellDerived(s: Sys, cap: Cap, origin: Origin, before: nat) {
    origin.Derived? ==>
      && Has(s, origin.table, origin.slot)
      && var src := s.tables[origin.table][origin.slot];
      && src.born < before
      && src.cap.object_id == cap.object_id && src.cap.generation == cap.generation
      && Contains(src.cap.rights, cap.rights) && Contains(src.cap.rights, GRANT)
  }

  ghost predicate SlotInv(s: Sys, t: nat, i: nat)
    requires Has(s, t, i)
  {
    var x := s.tables[t][i];
    NotAhead(s.objects, x.cap) && x.born < s.clock && WellDerived(s, x.cap, x.origin, x.born)
  }

  ghost predicate Inv(s: Sys) {
    && (forall k :: 0 <= k < |s.objects| ==> s.objects[k].generation >= 1)
    && (forall t: nat, i: nat :: Has(s, t, i) ==> SlotInv(s, t, i))
    && (forall th :: th in s.pending ==>
          NotAhead(s.objects, s.pending[th].cap) && WellDerived(s, s.pending[th].cap, s.pending[th].origin, s.clock))
  }

  /** Objects only gain generations, and the dead stay dead. */
  ghost predicate Later(objects: seq<Object>, objects': seq<Object>) {
    && |objects| <= |objects'|
    && (forall k :: 0 <= k < |objects| ==>
          objects[k].generation <= objects'[k].generation && (objects'[k].alive ==> objects[k].alive))
    && (forall k :: |objects| <= k < |objects'| ==> objects'[k].generation >= 1)
  }

  /** Tables only grow; a slot once written never changes. */
  ghost predicate Grows(s: Sys, s': Sys) {
    && s.clock <= s'.clock && Later(s.objects, s'.objects)
    && forall t: nat, i: nat :: Has(s, t, i) ==> Has(s', t, i) && s'.tables[t][i] == s.tables[t][i]
  }

  lemma StepGrows(s: Sys, e: Event)
    requires Allowed(s, e)
    ensures Grows(s, Apply(s, e))
  {
  }

  lemma NotAheadLater(objects: seq<Object>, objects': seq<Object>, cap: Cap)
    requires NotAhead(objects, cap) && Later(objects, objects')
    ensures NotAhead(objects', cap)
  {
  }

  lemma WellDerivedGrows(s: Sys, s': Sys, cap: Cap, origin: Origin, before: nat, before': nat)
    requires WellDerived(s, cap, origin, before) && Grows(s, s') && before <= before'
    ensures WellDerived(s', cap, origin, before')
  {
    hide Contains;
  }

  lemma PushInv(s: Sys, t: nat, cap: Cap, origin: Origin)
    requires Inv(s) && t < |s.tables| && NotAhead(s.objects, cap) && WellDerived(s, cap, origin, s.clock)
    ensures Inv(Push(s, t, cap, origin))
  {
    hide Contains, NotAhead, WellDerived;
    var s' := Push(s, t, cap, origin);
    assert Grows(s, s');
    forall u: nat, i: nat | Has(s', u, i) ensures SlotInv(s', u, i) {
      if Has(s, u, i) {
        assert SlotInv(s, u, i);
        var x := s.tables[u][i];
        WellDerivedGrows(s, s', x.cap, x.origin, x.born, x.born);
      } else {
        WellDerivedGrows(s, s', cap, origin, s.clock, s.clock);
      }
    }
    forall th | th in s'.pending
      ensures NotAhead(s'.objects, s'.pending[th].cap) && WellDerived(s', s'.pending[th].cap, s'.pending[th].origin, s'.clock)
    {
      WellDerivedGrows(s, s', s.pending[th].cap, s.pending[th].origin, s.clock, s'.clock);
    }
  }

  lemma ObjectsInv(s: Sys, objects: seq<Object>)
    requires Inv(s) && Later(s.objects, objects) && (forall k :: 0 <= k < |objects| ==> objects[k].generation >= 1)
    ensures Inv(s.(objects := objects))
  {
    hide Contains, NotAhead, WellDerived;
    var s' := s.(objects := objects);
    forall t: nat, i: nat | Has(s', t, i) ensures SlotInv(s', t, i) {
      assert SlotInv(s, t, i);
      var x := s.tables[t][i];
      NotAheadLater(s.objects, objects, x.cap);
      WellDerivedGrows(s, s', x.cap, x.origin, x.born, x.born);
    }
    forall th | th in s'.pending
      ensures NotAhead(s'.objects, s'.pending[th].cap) && WellDerived(s', s'.pending[th].cap, s'.pending[th].origin, s'.clock)
    {
      NotAheadLater(s.objects, objects, s.pending[th].cap);
      WellDerivedGrows(s, s', s.pending[th].cap, s.pending[th].origin, s.clock, s.clock);
    }
  }

  lemma CheckInv(s: Sys, thread: nat, t: nat, i: nat, requested: Rights, target: nat)
    requires Inv(s) && CheckDerive(s.objects, CapAt(s, t, i), requested).Ok?
    ensures var cap := CheckDerive(s.objects, CapAt(s, t, i), requested).value;
            NotAhead(s.objects, cap) && WellDerived(s, cap, Derived(t, i), s.clock)
  {
    assert SlotInv(s, t, i);
  }

  lemma StepInv(s: Sys, e: Event)
    requires Inv(s) && Allowed(s, e)
    ensures Inv(Apply(s, e))
  {
    hide Contains, WellDerived, CheckDerive;
    match e
    case Create => ObjectsInv(s, s.objects + [Object(1, true)]);
    case Revoke(id, destroy) => ObjectsInv(s, BumpGeneration(s.objects, id, destroy));
    case NewTable => TablesInv(s);
    case Grant(t, id, rights) =>
      GrantedIsFine(s, Cap(id, rights, GenerationForGrant(s.objects, id)));
      PushInv(s, t, Cap(id, rights, GenerationForGrant(s.objects, id)), Granted);
    case DeriveCheck(thread, t, i, requested, target) =>
      if CheckDerive(s.objects, CapAt(s, t, i), requested).Ok? {
        CheckInv(s, thread, t, i, requested, target);
        PendingInv(s, thread, CheckDerive(s.objects, CapAt(s, t, i), requested).value, Derived(t, i), target);
      }
    case DerivePush(thread) =>
      var p := s.pending[thread];
      DropPendingInv(s, thread);
      PushInv(s.(pending := s.pending - {thread}), p.target, p.cap, p.origin);
  }

  lemma GrantedIsFine(s: Sys, cap: Cap)
    requires cap.generation == GenerationForGrant(s.objects, cap.object_id)
    ensures NotAhead(s.objects, cap) && WellDerived(s, cap, Granted, s.clock)
  {
  }

  lemma TablesInv(s: Sys)
    requires Inv(s)
    ensures Inv(s.(tables := s.tables + [[]]))
  {
    hide Contains, NotAhead, WellDerived;
    var s' := s.(tables := s.tables + [[]]);
    assert Grows(s, s');
    forall t: nat, i: nat | Has(s', t, i) ensures SlotInv(s', t, i) {
      assert SlotInv(s, t, i);
      WellDerivedGrows(s, s', s.tables[t][i].cap, s.tables[t][i].origin, s.tables[t][i].born, s.tables[t][i].born);
    }
    forall th | th in s'.pending
      ensures NotAhead(s'.objects, s'.pending[th].cap) && WellDerived(s', s'.pending[th].cap, s'.pending[th].origin, s'.clock)
    {
      WellDerivedGrows(s, s', s.pending[th].cap, s.pending[th].origin, s.clock, s.clock);
    }
  }

  lemma PendingInv(s: Sys, thread: nat, cap: Cap, origin: Origin, target: nat)
    requires Inv(s) && NotAhead(s.objects, cap) && WellDerived(s, cap, origin, s.clock)
    ensures Inv(s.(pending := s.pending[thread := Pending(cap, origin, target)]))
  {
    hide Contains, NotAhead;
    var s' := s.(pending := s.pending[thread := Pending(cap, origin, target)]);
    forall t: nat, i: nat | Has(s', t, i) ensures SlotInv(s', t, i) { assert SlotInv(s, t, i); }
  }

  lemma DropPendingInv(s: Sys, thread: nat)
    requires Inv(s) && thread in s.pending
    ensures var s' := s.(pending := s.pending - {thread}); var p := s.pending[thread];
            Inv(s') && NotAhead(s'.objects, p.cap) && WellDerived(s', p.cap, p.origin, s'.clock)
  {
    hide Contains, NotAhead;
    var s' := s.(pending := s.pending - {thread});
    forall t: nat, i: nat | Has(s', t, i) ensures SlotInv(s', t, i) { assert SlotInv(s, t, i); }
  }

  lemma {:induction false} RunInv(s: Sys, es: seq<Event>, s': Sys)
    requires Inv(s) && Runs(s, es, s')
    ensures Inv(s') && Grows(s, s')
    decreases |es|
  {
    hide Inv, Apply, Allowed, Grows;
    if es == [] {
      GrowsRefl(s);
    } else {
      StepInv(s, es[0]);
      StepGrows(s, es[0]);
      RunInv(Apply(s, es[0]), es[1..], s');
      GrowsTrans(s, Apply(s, es[0]), s');
    }
  }

  lemma GrowsRefl(s: Sys)
    ensures Grows(s, s)
  {
  }

  lemma GrowsTrans(s: Sys, s1: Sys, s2: Sys)
    requires Grows(s, s1) && Grows(s1, s2)
    ensures Grows(s, s2)
  {
  }

  // ----- Revocation is final ----------------------------------------------

  /** Never to resolve again: behind its object's generation, or on a dead object,
      or on one that did not exist when it was granted. */
  predicate Dead(objects: seq<Object>, cap: Cap) {
    if cap.object_id < |objects|
    then cap.generation < objects[cap.object_id].generation || !objects[cap.object_id].alive
    else cap.generation == 0
  }

  lemma DeadNeverResolves(objects: seq<Object>, cap: Cap, required: Rights)
    requires Dead(objects, cap)
    ensures ResolveCap(objects, Some(cap), required) == Err(Revoked)
  {
  }

  lemma DeadStaysDead(objects: seq<Object>, objects': seq<Object>, cap: Cap)
    requires Dead(objects, cap) && Later(objects, objects')
    ensures Dead(objects', cap)
  {
  }

  lemma RevokeKills(s: Sys, id: nat, destroy: bool, cap: Cap)
    requires id < |s.objects| && cap.object_id == id && NotAhead(s.objects, cap)
    ensures Dead(Apply(s, Revoke(id, destroy)).objects, cap)
  {
  }

  /** After a revocation of `id`, whatever any threads do, no capability to it that
      existed before, in any table and at any derivation depth, resolves ever again. */
  lemma RevocationIsFinal(s: Sys, id: nat, destroy: bool, es: seq<Event>, s': Sys, t: nat, i: nat, required: Rights)
    requires Inv(s) && id < |s.objects| && Runs(Apply(s, Revoke(id, destroy)), es, s')
    requires Has(s, t, i) && s.tables[t][i].cap.object_id == id
    ensures Has(s', t, i) && Resolve(s', t, i, required) == Err(Revoked)
  {
    var s1 := Apply(s, Revoke(id, destroy));
    var cap := s.tables[t][i].cap;
    assert SlotInv(s, t, i);
    RevokeKills(s, id, destroy, cap);
    StepInv(s, Revoke(id, destroy));
    RunInv(s1, es, s');
    assert Has(s1, t, i);
    DeadStaysDead(s1.objects, s'.objects, cap);
    DeadNeverResolves(s'.objects, cap, required);
  }

  /** A derivation that passed its check before the revocation and pushes after it
      delivers a capability that is dead on arrival and stays so. */
  lemma OvertakenDeriveIsDead(s: Sys, thread: nat, id: nat, destroy: bool, es: seq<Event>, s2: Sys, fs: seq<Event>, s': Sys, required: Rights)
    requires Inv(s) && id < |s.objects| && thread in s.pending && s.pending[thread].cap.object_id == id
    requires Runs(Apply(s, Revoke(id, destroy)), es, s2)
    requires thread in s2.pending && s2.pending[thread] == s.pending[thread] && Allowed(s2, DerivePush(thread))
    requires Runs(Apply(s2, DerivePush(thread)), fs, s')
    ensures var t := s.pending[thread].target; var i := |s2.tables[t]|;
            Has(s', t, i) && Resolve(s', t, i, required) == Err(Revoked)
  {
    var s1, p := Apply(s, Revoke(id, destroy)), s.pending[thread];
    RevokeKills(s, id, destroy, p.cap);
    StepInv(s, Revoke(id, destroy));
    RunInv(s1, es, s2);
    DeadStaysDead(s1.objects, s2.objects, p.cap);
    var s3 := Apply(s2, DerivePush(thread));
    StepInv(s2, DerivePush(thread));
    assert Has(s3, p.target, |s2.tables[p.target]|);
    RunInv(s3, fs, s');
    DeadStaysDead(s3.objects, s'.objects, p.cap);
    DeadNeverResolves(s'.objects, p.cap, required);
  }

  /** Destroying an object also blocks every capability granted or derived afterwards. */
  lemma DestructionIsForever(s: Sys, id: nat, es: seq<Event>, s': Sys, t: nat, i: nat, required: Rights)
    requires Inv(s) && id < |s.objects| && Runs(Apply(s, Revoke(id, true)), es, s')
    requires Has(s', t, i) && s'.tables[t][i].cap.object_id == id
    ensures Resolve(s', t, i, required) == Err(Revoked)
  {
    StepInv(s, Revoke(id, true));
    RunInv(Apply(s, Revoke(id, true)), es, s');
  }

  /** Nothing but a revocation of its own object stops a capability from resolving. */
  lemma {:induction false} OnlyRevocationKills(s: Sys, es: seq<Event>, s': Sys, t: nat, i: nat, required: Rights)
    requires Runs(s, es, s') && Resolve(s, t, i, required).Ok?
    requires forall k :: 0 <= k < |es| && es[k].Revoke? ==> es[k].id != Resolve(s, t, i, required).value.object_id
    ensures Resolve(s', t, i, required) == Resolve(s, t, i, required)
    decreases |es|
  {
    if es != [] {
      var s1 := Apply(s, es[0]);
      StepGrows(s, es[0]);
      assert Has(s, t, i) && Has(s1, t, i);
      assert es[0].Revoke? ==> es[0].id != s.tables[t][i].cap.object_id;
      OnlyRevocationKills(s1, es[1..], s', t, i, required);
    }
  }

  // ----- Attenuation ------------------------------------------------------

  /** `(a, j)` is `(t, i)` or one of the capabilities it was derived from. */
  ghost predicate Descends(s: Sys, t: nat, i: nat, a: nat, j: nat)
    requires Inv(s) && Has(s, t, i)
    decreases s.tables[t][i].born
  {
    || (t, i) == (a, j)
    || (SlotInv(s, t, i) && s.tables[t][i].origin.Derived?
        && Descends(s, s.tables[t][i].origin.table, s.tables[t][i].origin.slot, a, j))
  }

  /** A capability never has a right that one of its ancestors lacks, taken right by right;
      all of them name the same object and generation, and every proper ancestor could
      delegate. */
  lemma RightsOnlyShrink(s: Sys, t: nat, i: nat, a: nat, j: nat)
    requires Inv(s) && Has(s, t, i) && Descends(s, t, i, a, j)
    ensures Has(s, a, j)
    ensures var c, r := s.tables[t][i].cap, s.tables[a][j].cap;
            && Covers(r.rights, c.rights) && r.object_id == c.object_id && r.generation == c.generation
            && ((t, i) != (a, j) ==> r.rights & 4 != 0)
  {
    hide Inv, Contains, Descends, Covers;
    MasksOnlyShrink(s, t, i, a, j);
    var c, r := s.tables[t][i].cap, s.tables[a][j].cap;
    ContainsIsCovers(r.rights, c.rights);
    GrantBit(r.rights);
  }

  lemma {:induction false} MasksOnlyShrink(s: Sys, t: nat, i: nat, a: nat, j: nat)
    requires Inv(s) && Has(s, t, i) && Descends(s, t, i, a, j)
    ensures Has(s, a, j)
    ensures var c, r := s.tables[t][i].cap, s.tables[a][j].cap;
            && Contains(r.rights, c.rights) && r.object_id == c.object_id && r.generation == c.generation
            && ((t, i) != (a, j) ==> Contains(r.rights, GRANT))
    decreases s.tables[t][i].born
  {
    hide Inv;
    var x := s.tables[t][i];
    if (t, i) != (a, j) {
      assert SlotInv(s, t, i);
      MasksOnlyShrink(s, x.origin.table, x.origin.slot, a, j);
      var src := s.tables[x.origin.table][x.origin.slot].cap;
      ContainsTrans(s.tables[a][j].cap.rights, src.rights, x.cap.rights);
      if (x.origin.table, x.origin.slot) != (a, j) {
        assert Contains(s.tables[a][j].cap.rights, GRANT);
      }
    }
  }

  // ----- What keeps working -----------------------------------------------

  predicate Live(s: Sys, id: nat) { id < |s.objects| && s.objects[id].alive }

  /** An object comes to life by being created and dies by being destroyed, and by nothing
      else; in particular a revocation that does not destroy leaves it alive. */
  lemma LiveAfter(s: Sys, e: Event, id: nat)
    requires Allowed(s, e)
    ensures Live(Apply(s, e), id) <==>
            (Live(s, id) && !(e.Revoke? && e.id == id && e.destroy)) || (e.Create? && id == |s.objects|)
  {
  }

  /** A new grant is at the end of its table, and resolves exactly if its object is alive and
      it has every right asked for. */
  lemma GrantResolvesIff(s: Sys, t: nat, id: nat, rights: Rights, required: Rights)
    requires t < |s.tables|
    ensures var s', i := Apply(s, Grant(t, id, rights)), |s.tables[t]|;
            && Has(s', t, i) && !Has(s', t, i + 1) && s'.tables[t][i].cap.object_id == id && s'.tables[t][i].cap.rights == rights
            && (Resolve(s', t, i, required).Ok? <==> Live(s, id) && Covers(rights, required))
  {
    hide Contains, Covers;
    ContainsIsCovers(rights, required);
  }

  /** A derivation that is checked and pushed with nothing in between delivers a capability
      with exactly the rights asked for, which resolves for them. */
  lemma DeriveResolves(s: Sys, thread: nat, t: nat, i: nat, requested: Rights, target: nat)
    requires Allowed(s, DeriveCheck(thread, t, i, requested, target)) && Has(s, t, i)
    requires var c := s.tables[t][i].cap; Current(s.objects, c) && c.rights & 4 != 0 && Covers(c.rights, requested)
    ensures var s1 := Apply(s, DeriveCheck(thread, t, i, requested, target));
            && Allowed(s1, DerivePush(thread))
            && var s2, j := Apply(s1, DerivePush(thread)), |s.tables[target]|;
            Has(s2, target, j) && Resolve(s2, target, j, requested) == Ok(Cap(s.tables[t][i].cap.object_id, requested, s.tables[t][i].cap.generation))
  {
    hide Contains, Covers;
    CheckDeriveAnswers(s.objects, CapAt(s, t, i), requested);
    assert Contains(requested, requested) by { SelfContained(requested); }
  }

  lemma SelfContained(r: Rights)
    ensures Contains(r, r)
  {
  }

  /** Every capability descends from a root grant. */
  lemma {:induction false} HasRootGrant(s: Sys, t: nat, i: nat) returns (a: nat, j: nat)
    requires Inv(s) && Has(s, t, i)
    ensures Has(s, a, j) && s.tables[a][j].origin == Granted && Descends(s, t, i, a, j)
    decreases s.tables[t][i].born
  {
    assert SlotInv(s, t, i);
    var o := s.tables[t][i].origin;
    if o.Derived? {
      a, j := HasRootGrant(s, o.table, o.slot);
    } else {
      a, j := t, i;
    }
  }

  /** Nothing that still resolves descends from a capability that existed before the
      revocation. */
  lemma NoOldAncestor(s: Sys, id: nat, destroy: bool, es: seq<Event>, s': Sys, t: nat, i: nat, required: Rights, a: nat, j: nat)
    requires Inv(s) && id < |s.objects| && Runs(Apply(s, Revoke(id, destroy)), es, s') && Inv(s')
    requires Has(s', t, i) && s'.tables[t][i].cap.object_id == id && Resolve(s', t, i, required).Ok?
    requires Descends(s', t, i, a, j)
    ensures !Has(s, a, j)
  {
    hide Inv, Descends, Contains, Runs;
    RightsOnlyShrink(s', t, i, a, j);
    if Has(s, a, j) {
      var s1, c, r := Apply(s, Revoke(id, destroy)), s'.tables[t][i].cap, s'.tables[a][j].cap;
      StepInv(s, Revoke(id, destroy));
      RunInv(s1, es, s');
      assert Has(s1, a, j) && s.tables[a][j].cap == r;
      OldIsDead(s, id, destroy, s1, s', a, j);
      DeadNeverResolves(s'.objects, c, required);
      assert false;
    }
  }

  lemma OldIsDead(s: Sys, id: nat, destroy: bool, s1: Sys, s': Sys, a: nat, j: nat)
    requires Inv(s) && id < |s.objects| && s1 == Apply(s, Revoke(id, destroy)) && Grows(s1, s')
    requires Has(s, a, j) && s.tables[a][j].cap.object_id == id
    ensures Dead(s'.objects, s.tables[a][j].cap)
  {
    assert SlotInv(s, a, j);
    RevokeKills(s, id, destroy, s.tables[a][j].cap);
    DeadStaysDead(s1.objects, s'.objects, s.tables[a][j].cap);
  }

  /** Whatever gives access to the object after a revocation descends, at whatever depth
      and through whatever tables, from a grant issued after it. */
  lemma AccessMeansNewGrant(s: Sys, id: nat, destroy: bool, es: seq<Event>, s': Sys, t: nat, i: nat, required: Rights)
    returns (a: nat, j: nat)
    requires Inv(s) && id < |s.objects| && Runs(Apply(s, Revoke(id, destroy)), es, s')
    requires Has(s', t, i) && s'.tables[t][i].cap.object_id == id && Resolve(s', t, i, required).Ok?
    ensures Inv(s') && Has(s', a, j) && !Has(s, a, j) && s'.tables[a][j].origin == Granted
    ensures Descends(s', t, i, a, j) && s'.tables[a][j].cap.object_id == id
  {
    hide Inv, Descends, Contains, Runs;
    StepInv(s, Revoke(id, destroy));
    RunInv(Apply(s, Revoke(id, destroy)), es, s');
    a, j := HasRootGrant(s', t, i);
    RightsOnlyShrink(s', t, i, a, j);
    NoOldAncestor(s, id, destroy, es, s', t, i, required, a, j);
  }

  /** All of this holds in every state the system can get into. */
  lemma BootIsFine(es: seq<Event>, s: Sys)
    requires Runs(Boot, es, s)
    ensures Inv(s)
  {
    RunInv(Boot, es, s);
  }
}
