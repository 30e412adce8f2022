/** The fire-and-forget mailbox of an IPC endpoint: a 32-slot ring with producers
    (`try_send`) and consumers (`try_receive`), interleaved load by load and store by
    store.  A message is four words, written and read one word at a time.

    Any number of producers and consumers step in any order.  The ring keeps the order of
    the messages exactly when there is one of each. */
module IpcRing {

  const DEPTH: nat := 32
  const WORDS: nat := 4

  type Msg = m: seq<nat> | |m| == 4 witness [0, 0, 0, 0]

  datatype Producer =
    | PIdle
    | PChecked(m: Msg)                         // saw room
    | PWriting(m: Msg, head: nat, w: nat)      // head loaded, w words written
    | PAdvanced(m: Msg)                        // head stored, length not yet bumped

  datatype Consumer =
    | CIdle
    | CChecked                                 // saw a message
    | CReading(tail: nat, got: seq<nat>)       // tail loaded, words read so far
    | CAdvanced(m: Msg)                        // tail stored, length not yet dropped

  /** `sent` and `received`: the messages accepted and returned so far; `dropped`: those
      refused because the ring was full. */
  datatype Ring = Ring(head: nat, tail: nat, len: nat, slots: seq<Msg>,
                       p: seq<Producer>, c: seq<Consumer>, sent: seq<Msg>, received: seq<Msg>, dropped: nat)

  datatype Action = Send(i: nat, m: Msg) | Receive(i: nat) | StepP(i: nat) | StepC(i: nat)

  predicate Enabled(s: Ring, a: Action) {
    && |s.slots| == DEPTH
    && match a
       case Send(i, _) => i < |s.p| && s.p[i].PIdle?
       case Receive(i) => i < |s.c| && s.c[i].CIdle?
       case StepP(i) => i < |s.p| && (match s.p[i] case PIdle => false case PWriting(_, h, w) => h < DEPTH && w <= WORDS case _ => true)
       case StepC(i) => i < |s.c| && (match s.c[i] case CIdle => false case CReading(t, got) => t < DEPTH && |got| <= WORDS case _ => true)
  }

  function Do(s: Ring, a: Action): Ring
    requires Enabled(s, a)
  {
    match a
    case Send(i, m) => if s.len >= DEPTH then s.(dropped := s.dropped + 1) else s.(p := s.p[i := PChecked(m)])
    case Receive(i) => if s.len == 0 then s else s.(c := s.c[i := CChecked])
    case StepP(i) => StepProducer(s, i)
    case StepC(i) => StepConsumer(s, i)
  }

  function StepProducer(s: Ring, i: nat): Ring
    requires Enabled(s, StepP(i))
  {
    match s.p[i]
    case PIdle => s
    case PChecked(m) => s.(p := s.p[i := PWriting(m, s.head, 0)])
    case PWriting(m, h, w) =>
      if w < WORDS then s.(slots := s.slots[h := s.slots[h][w := m[w]]], p := s.p[i := PWriting(m, h, w + 1)])
      else s.(head := (h + 1) % DEPTH, p := s.p[i := PAdvanced(m)])
    case PAdvanced(m) => s.(len := (s.len + 1) % 256, p := s.p[i := PIdle], sent := s.sent + [m])
  }

  function StepConsumer(s: Ring, i: nat): Ring
    requires Enabled(s, StepC(i))
  {
    match s.c[i]
    case CIdle => s
    case CChecked => s.(c := s.c[i := CReading(s.tail, [])])
    case CReading(t, got) =>
      if |got| < WORDS then s.(c := s.c[i := CReading(t, got + [s.slots[t][|got|]])])
      else s.(tail := (t + 1) % DEPTH, c := s.c[i := CAdvanced(got)])
    case CAdvanced(m) => s.(len := (s.len + 255) % 256, c := s.c[i := CIdle], received := s.received + [m])
  }

  function Init(producers: nat, consumers: nat, slots: seq<Msg>): Ring
    requires |slots| == DEPTH
  {
    Ring(0, 0, 0, slots, seq(producers, _ => PIdle), seq(consumers, _ => CIdle), [], [], 0)
  }

  ghost predicate Runs(s: Ring, as_: seq<Action>, s': Ring)
    decreases |as_|
  {
    if as_ == [] then s' == s else Enabled(s, as_[0]) && Runs(Do(s, as_[0]), as_[1..], s')
  }

  ghost predicate Reachable(producers: nat, consumers: nat, s: Ring) {
    exists slots, as_ :: |slots| == DEPTH && Runs(Init(producers, consumers, slots), as_, s)
  }

  /** The messages returned are, in order and whole, the first of those accepted. */
  predicate InOrder(s: Ring) { s.received <= s.sent }

  // ----- Invariant --------------------------------------------------------

  ghost predicate ProducerInv(s: Ring)
    requires |s.slots| == DEPTH && |s.p| == 1
  {
    var n := |s.sent|;
    match s.p[0]
    case PIdle => s.head == n % DEPTH
    case PChecked(_) => s.head == n % DEPTH && s.len < DEPTH
    case PWriting(m, h, w) => s.head == h == n % DEPTH && s.len < DEPTH && w <= WORDS && s.slots[h][..w] == m[..w]
    case PAdvanced(m) => s.head == (n + 1) % DEPTH && s.len < DEPTH && s.slots[n % DEPTH] == m
  }

  ghost predicate ConsumerInv(s: Ring)
    requires |s.c| == 1
  {
    var k := |s.received|;
    match s.c[0]
    case CIdle => s.tail == k % DEPTH
    case CChecked => s.tail == k % DEPTH && s.len > 0
    case CReading(t, got) => s.tail == t == k % DEPTH && s.len > 0 && k < |s.sent| && |got| <= WORDS && got == s.sent[k][..|got|]
    case CAdvanced(m) => s.tail == (k + 1) % DEPTH && s.len > 0 && k < |s.sent| && m == s.sent[k]
  }

  ghost predicate Inv(s: Ring) {
    && |s.slots| == DEPTH && |s.p| == 1 && |s.c| == 1
    && |s.received| <= |s.sent| <= |s.received| + DEPTH
    && s.len == |s.sent| - |s.received|
    && s.received == s.sent[..|s.received|]
    && (forall k :: |s.received| <= k < |s.sent| ==> s.slots[k % DEPTH] == s.sent[k])
    && ProducerInv(s) && ConsumerInv(s)
  }

  /** Within one lap of the ring, different messages sit in different slots. */
  lemma SlotsDiffer(j: nat, k: nat)
    requires j < k < j + DEPTH
    ensures j % DEPTH != k % DEPTH
  {
  }

  lemma NextSlot(h: nat, n: nat)
    requires h == n % DEPTH
    ensures (h + 1) % DEPTH == (n + 1) % DEPTH
  {
  }

  lemma CallInv(s: Ring, a: Action)
    requires Inv(s) && Enabled(s, a) && (a.Send? || a.Receive?)
    ensures Inv(Do(s, a))
  {
  }

  lemma WriteInv(s: Ring)
    requires Inv(s) && Enabled(s, StepP(0)) && s.p[0].PWriting? && s.p[0].w < WORDS
    ensures Inv(StepProducer(s, 0))
  {
    var s', n := StepProducer(s, 0), |s.sent|;
    forall k | |s.received| <= k < n ensures s'.slots[k % DEPTH] == s.sent[k] {
      SlotsDiffer(k, n);
    }
    assert s'.slots[s.p[0].head][..s.p[0].w + 1] == s.p[0].m[..s.p[0].w + 1];
  }

  lemma ProducerKeeps(s: Ring)
    requires Inv(s) && Enabled(s, StepP(0))
    ensures Inv(StepProducer(s, 0))
  {
    match s.p[0]
    case PChecked(m) =>
    case PWriting(m, h, w) =>
      if w < WORDS {
        WriteInv(s);
      } else {
        NextSlot(h, |s.sent|);
        assert s.slots[h] == m;
      }
    case PAdvanced(m) => EnqueueInv(s);
  }

  lemma EnqueueInv(s: Ring)
    requires Inv(s) && s.p[0].PAdvanced?
    ensures Inv(StepProducer(s, 0))
  {
    var s' := StepProducer(s, 0);
    assert s'.received == s'.sent[..|s'.received|];
    if s.c[0].CReading? { assert s'.sent[|s.received|] == s.sent[|s.received|]; }
  }

  lemma ReadInv(s: Ring)
    requires Inv(s) && s.c[0].CReading? && |s.c[0].got| < WORDS
    ensures Enabled(s, StepC(0)) && Inv(StepConsumer(s, 0))
  {
    var m, got := s.sent[|s.received|], s.c[0].got;
    assert s.slots[s.c[0].tail] == m;
    assert m[..|got| + 1] == m[..|got|] + [m[|got|]];
  }

  lemma DequeueInv(s: Ring)
    requires Inv(s) && s.c[0].CAdvanced?
    ensures Inv(StepConsumer(s, 0))
  {
    var k := |s.received|;
    assert s.sent[..k + 1] == s.sent[..k] + [s.sent[k]];
  }

  lemma ConsumerKeeps(s: Ring)
    requires Inv(s) && Enabled(s, StepC(0))
    ensures Inv(StepConsumer(s, 0))
  {
    match s.c[0]
    case CChecked =>
    case CReading(t, got) =>
      if |got| < WORDS {
        ReadInv(s);
      } else {
        NextSlot(t, |s.received|);
        assert got == s.sent[|s.received|];
      }
    case CAdvanced(m) => DequeueInv(s);
  }

  lemma StepInv(s: Ring, a: Action)
    requires Inv(s) && Enabled(s, a)
    ensures Inv(Do(s, a))
  {
    assert |s.p| == 1 && |s.c| == 1;
    hide Inv;
    match a
    case Send(_, _) => CallInv(s, a);
    case Receive(_) => CallInv(s, a);
    case StepP(_) => ProducerKeeps(s);
    case StepC(_) => ConsumerKeeps(s);
  }

  lemma {:induction false} RunInv(s: Ring, as_: seq<Action>, s': Ring)
    requires Inv(s) && Runs(s, as_, s')
    ensures Inv(s')
    decreases |as_|
  {
    hide Inv, Do, Enabled;
    if as_ != [] {
      StepInv(s, as_[0]);
      RunInv(Do(s, as_[0]), as_[1..], s');
    }
  }

  /** Over every interleaving of one producer and one consumer: the messages returned are, in order and whole, the first
      of the messages accepted; none is lost or returned twice; at most 32 wait. */
  lemma FirstInFirstOut(slots: seq<Msg>, as_: seq<Action>, s: Ring)
    requires |slots| == 32 && Runs(Init(1, 1, slots), as_, s)
    ensures InOrder(s) && s.received <= s.sent && |s.sent| - |s.received| == s.len <= 32
  {
    RunInv(Init(1, 1, slots), as_, s);
  }

  /** A send is refused only when 32 messages are waiting or being taken, and a receive
      comes back empty only when everything accepted has been returned. */
  lemma RefusalsAreHonest(slots: seq<Msg>, as_: seq<Action>, s: Ring, m: Msg)
    requires |slots| == 32 && Runs(Init(1, 1, slots), as_, s)
    ensures |s.slots| == 32 && |s.p| == 1 && |s.c| == 1
    ensures s.p[0].PIdle? ==> (Do(s, Send(0, m)).p[0].PIdle? <==> |s.sent| - |s.received| == 32)
    ensures s.c[0].CIdle? ==> (Do(s, Receive(0)).c[0].CIdle? <==> s.received == s.sent)
  {
    RunInv(Init(1, 1, slots), as_, s);
  }

  // ----- More of either ---------------------------------------------------

  lemma RunsStep(s: Ring, a: Action, as_: seq<Action>, s': Ring)
    requires Enabled(s, a) && Runs(Do(s, a), as_, s')
    ensures Runs(s, [a] + as_, s')
  {
    assert ([a] + as_)[1..] == as_;
  }

  lemma {:induction false} RunsConcat(s: Ring, as_: seq<Action>, s1: Ring, cs: seq<Action>, s2: Ring)
    requires Runs(s, as_, s1) && Runs(s1, cs, s2)
    ensures Runs(s, as_ + cs, s2)
    decreases |as_|
  {
    hide Do, Enabled;
    if as_ == [] {
      assert as_ + cs == cs;
    } else {
      RunsConcat(Do(s, as_[0]), as_[1..], s1, cs, s2);
      assert (as_ + cs)[1..] == as_[1..] + cs;
    }
  }

  /** One more step at the end of a run. */
  lemma Then(s0: Ring, as_: seq<Action>, s: Ring, a: Action) returns (as1: seq<Action>, s1: Ring)
    requires Runs(s0, as_, s) && Enabled(s, a)
    ensures Runs(s0, as1, s1) && s1 == Do(s, a)
  {
    hide Do, Enabled;
    s1 := Do(s, a);
    assert Runs(s1, [], s1);
    RunsStep(s, a, [], s1);
    as1 := as_ + ([a] + []);
    RunsConcat(s0, as_, s, [a] + [], s1);
  }

  /** Producer `i`, its head loaded, writes its message and counts it. */
  lemma Produce(s0: Ring, as_: seq<Action>, s: Ring, i: nat, m: Msg, h: nat) returns (as1: seq<Action>, s1: Ring)
    requires Runs(s0, as_, s) && |s.slots| == DEPTH && i < |s.p| && s.p[i] == PWriting(m, h, 0) && h < DEPTH
    ensures Runs(s0, as1, s1)
    ensures s1 == s.(slots := s.slots[h := m], head := (h + 1) % DEPTH, len := (s.len + 1) % 256,
                     p := s.p[i := PIdle], sent := s.sent + [m])
  {
    hide Do;
    as1, s1 := WriteWords(s0, as_, s, i, m, h, 0);
    ProducedSteps(s1, i, m, h);
    as1, s1 := Then(s0, as1, s1, StepP(i));
    as1, s1 := Then(s0, as1, s1, StepP(i));
    assert s.p[i := PWriting(m, h, WORDS)][i := PIdle] == s.p[i := PIdle];
  }

  lemma ProducedSteps(s: Ring, i: nat, m: Msg, h: nat)
    requires |s.slots| == DEPTH && i < |s.p| && s.p[i] == PWriting(m, h, WORDS) && h < DEPTH
    ensures Enabled(s, StepP(i)) && Enabled(Do(s, StepP(i)), StepP(i))
    ensures Do(Do(s, StepP(i)), StepP(i)) ==
            s.(head := (h + 1) % DEPTH, len := (s.len + 1) % 256, p := s.p[i := PIdle], sent := s.sent + [m])
  {
    assert s.p[i := PAdvanced(m)][i := PIdle] == s.p[i := PIdle];
  }

  lemma {:induction false} WriteWords(s0: Ring, as_: seq<Action>, s: Ring, i: nat, m: Msg, h: nat, w: nat)
    returns (as1: seq<Action>, s1: Ring)
    requires Runs(s0, as_, s) && |s.slots| == DEPTH && i < |s.p| && s.p[i] == PWriting(m, h, w) && h < DEPTH
    requires w <= WORDS && s.slots[h][..w] == m[..w]
    ensures Runs(s0, as1, s1) && s1 == s.(slots := s.slots[h := m], p := s.p[i := PWriting(m, h, WORDS)])
    decreases WORDS - w
  {
    if w == WORDS {
      as1, s1 := as_, s;
      assert s.slots[h] == m;
    } else {
      as1, s1 := Then(s0, as_, s, StepP(i));
      assert s1.slots[h][..w + 1] == m[..w + 1];
      hide Do;
      as1, s1 := WriteWords(s0, as1, s1, i, m, h, w + 1);
    }
  }

  /** Consumer `i`, its tail loaded, reads the slot and returns it. */
  lemma Consume(s0: Ring, as_: seq<Action>, s: Ring, i: nat, t: nat) returns (as1: seq<Action>, s1: Ring)
    requires Runs(s0, as_, s) && |s.slots| == DEPTH && i < |s.c| && s.c[i] == CReading(t, []) && t < DEPTH
    ensures Runs(s0, as1, s1)
    ensures s1 == s.(tail := (t + 1) % DEPTH, len := (s.len + 255) % 256, c := s.c[i := CIdle],
                     received := s.received + [s.slots[t]])
  {
    hide Do;
    as1, s1 := ReadWords(s0, as_, s, i, t, []);
    ConsumedSteps(s1, i, t, s.slots[t]);
    as1, s1 := Then(s0, as1, s1, StepC(i));
    as1, s1 := Then(s0, as1, s1, StepC(i));
    assert s.c[i := CReading(t, s.slots[t])][i := CIdle] == s.c[i := CIdle];
  }

  lemma ConsumedSteps(s: Ring, i: nat, t: nat, m: Msg)
    requires |s.slots| == DEPTH && i < |s.c| && s.c[i] == CReading(t, m) && t < DEPTH
    ensures Enabled(s, StepC(i)) && Enabled(Do(s, StepC(i)), StepC(i))
    ensures Do(Do(s, StepC(i)), StepC(i)) ==
            s.(tail := (t + 1) % DEPTH, len := (s.len + 255) % 256, c := s.c[i := CIdle], received := s.received + [m])
  {
    assert s.c[i := CAdvanced(m)][i := CIdle] == s.c[i := CIdle];
  }

  lemma {:induction false} ReadWords(s0: Ring, as_: seq<Action>, s: Ring, i: nat, t: nat, got: seq<nat>)
    returns (as1: seq<Action>, s1: Ring)
    requires Runs(s0, as_, s) && |s.slots| == DEPTH && i < |s.c| && s.c[i] == CReading(t, got) && t < DEPTH
    requires |got| <= WORDS && got == s.slots[t][..|got|]
    ensures Runs(s0, as1, s1) && s1 == s.(c := s.c[i := CReading(t, s.slots[t])])
    decreases WORDS - |got|
  {
    if |got| == WORDS {
      as1, s1 := as_, s;
      assert got == s.slots[t];
    } else {
      as1, s1 := Then(s0, as_, s, StepC(i));
      hide Do;
      as1, s1 := ReadWords(s0, as1, s1, i, t, got + [s.slots[t][|got|]]);
    }
  }

  function Slots(): (slots: seq<Msg>)
    ensures |slots| == DEPTH
  {
    seq(DEPTH, _ => [0, 0, 0, 0])
  }

  /** Two producers may both load the same head: the second message overwrites the first,
      and is returned in its place. */
  lemma TwoProducersBreak(producers: nat, consumers: nat) returns (s: Ring)
    requires producers >= 2 && consumers >= 1
    ensures Reachable(producers, consumers, s) && !InOrder(s)
  {
    hide Do, InOrder;
    var x: Msg, y: Msg := [1, 1, 1, 1], [2, 2, 2, 2];
    assert x[0] != y[0];
    s := Overwrites(producers, consumers, x, y);
    OutOfOrder(s, x, y);
  }

  lemma Overwrites(producers: nat, consumers: nat, x: Msg, y: Msg) returns (s: Ring)
    requires producers >= 2 && consumers >= 1
    ensures Reachable(producers, consumers, s) && s.sent == [x, y] && s.received == [y]
  {
    hide Do;
    var s0 := Init(producers, consumers, Slots());
    var as_, s1 := BothProducing(s0, x, y);
    as_, s1 := Produce(s0, as_, s1, 0, x, 0);
    as_, s1 := Produce(s0, as_, s1, 1, y, 0);
    as_, s1 := StartConsuming(s0, as_, s1, 0);
    as_, s := Consume(s0, as_, s1, 0, 0);
  }

  lemma OutOfOrder(s: Ring, x: Msg, y: Msg)
    requires x != y && s.sent == [x, y] && s.received == [y]
    ensures !InOrder(s)
  {
    assert s.received[0] != s.sent[0];
  }

  lemma BothProducing(s0: Ring, x: Msg, y: Msg) returns (as_: seq<Action>, s: Ring)
    requires |s0.slots| == DEPTH && |s0.p| >= 2 && s0.p[0].PIdle? && s0.p[1].PIdle? && s0.len == 0
    ensures Runs(s0, as_, s) && s == s0.(p := s0.p[0 := PWriting(x, s0.head, 0)][1 := PWriting(y, s0.head, 0)])
  {
    assert Runs(s0, [], s0);
    as_, s := Then(s0, [], s0, Send(0, x));
    as_, s := Then(s0, as_, s, Send(1, y));
    as_, s := Then(s0, as_, s, StepP(0));
    as_, s := Then(s0, as_, s, StepP(1));
  }

  lemma StartConsuming(s0: Ring, as_: seq<Action>, s: Ring, i: nat) returns (as1: seq<Action>, s1: Ring)
    requires Runs(s0, as_, s) && |s.slots| == DEPTH && i < |s.c| && s.c[i].CIdle? && s.len > 0
    ensures Runs(s0, as1, s1) && s1 == s.(c := s.c[i := CReading(s.tail, [])])
  {
    as1, s1 := Then(s0, as_, s, Receive(i));
    as1, s1 := Then(s0, as1, s1, StepC(i));
  }

  /** In every reachable state of one producer and one consumer: when fewer than 32 messages
      wait, an idle producer can send, by its own steps alone, and its message joins the
      queue; when one waits, an idle consumer can receive, and gets the oldest. */
  lemma SendCompletes(slots: seq<Msg>, as_: seq<Action>, s: Ring, m: Msg) returns (bs: seq<Action>, s': Ring)
    requires |slots| == 32 && Runs(Init(1, 1, slots), as_, s)
    requires |s.p| == 1 && s.p[0].PIdle? && |s.sent| - |s.received| < 32
    ensures Runs(s, bs, s') && s'.sent == s.sent + [m] && s'.received == s.received && s'.p == s.p && s'.c == s.c
  {
    RunInv(Init(1, 1, slots), as_, s);
    bs, s' := OneProducing(s, m);
    hide Do;
    bs, s' := Produce(s, bs, s', 0, m, s.head);
    assert s.p[0 := PWriting(m, s.head, 0)][0 := PIdle] == s.p;
  }

  lemma ReceiveCompletes(slots: seq<Msg>, as_: seq<Action>, s: Ring) returns (bs: seq<Action>, s': Ring)
    requires |slots| == 32 && Runs(Init(1, 1, slots), as_, s)
    requires |s.c| == 1 && s.c[0].CIdle? && |s.received| < |s.sent|
    ensures Runs(s, bs, s') && s'.received == s.received + [s.sent[|s.received|]]
    ensures s'.sent == s.sent && s'.c == s.c && s'.p == s.p
  {
    RunInv(Init(1, 1, slots), as_, s);
    assert Runs(s, [], s);
    bs, s' := StartConsuming(s, [], s, 0);
    hide Do;
    bs, s' := Consume(s, bs, s', 0, s.tail);
    assert s.c[0 := CReading(s.tail, [])][0 := CIdle] == s.c;
  }

  /** Two consumers may both load the same tail: one message is returned twice. */
  lemma TwoConsumersBreak(producers: nat, consumers: nat) returns (s: Ring)
    requires producers >= 1 && consumers >= 2
    ensures Reachable(producers, consumers, s) && !InOrder(s)
  {
    var x: Msg := [1, 1, 1, 1];
    var s0 := Init(producers, consumers, Slots());
    var as_, s1 := OneProducing(s0, x);
    hide Do;
    as_, s1 := Produce(s0, as_, s1, 0, x, 0);
    as_, s1 := StartConsuming(s0, as_, s1, 0);
    as_, s1 := StartConsuming(s0, as_, s1, 1);
    as_, s1 := Consume(s0, as_, s1, 0, 0);
    as_, s := Consume(s0, as_, s1, 1, 0);
    assert |s.received| == 2 && |s.sent| == 1;
  }

  lemma OneProducing(s0: Ring, x: Msg) returns (as_: seq<Action>, s: Ring)
    requires |s0.slots| == DEPTH && |s0.p| >= 1 && s0.p[0].PIdle? && s0.len < DEPTH
    ensures Runs(s0, as_, s) && s == s0.(p := s0.p[0 := PWriting(x, s0.head, 0)])
  {
    assert Runs(s0, [], s0);
    as_, s := Then(s0, [], s0, Send(0, x));
    as_, s := Then(s0, as_, s, StepP(0));
  }

  /** Without producers, or without consumers, nothing is ever returned. */
  ghost predicate Silent(s: Ring) {
    && s.received == []
    && (|s.c| == 0 || (|s.p| == 0 && s.len == 0 && forall i :: 0 <= i < |s.c| ==> s.c[i].CIdle?))
  }

  lemma {:induction false} StaysSilent(s: Ring, as_: seq<Action>, s': Ring)
    requires Silent(s) && Runs(s, as_, s')
    ensures Silent(s')
    decreases |as_|
  {
    if as_ != [] { StaysSilent(Do(s, as_[0]), as_[1..], s'); }
  }

  /** The ring keeps the order in every reachable state if and only if it has a single
      producer and a single consumer, or none of either. */
  lemma InOrderIffOneToOne(producers: nat, consumers: nat)
    ensures (forall s :: Reachable(producers, consumers, s) ==> InOrder(s)) <==>
            (producers == 1 && consumers == 1) || producers == 0 || consumers == 0
  {
    hide Do, InOrder;
    if producers == 0 || consumers == 0 {
      forall s | Reachable(producers, consumers, s) ensures InOrder(s) {
        var slots, as_ :| |slots| == DEPTH && Runs(Init(producers, consumers, slots), as_, s);
        StaysSilent(Init(producers, consumers, slots), as_, s);
        SilentInOrder(s);
      }
    } else if producers == 1 && consumers == 1 {
      forall s | Reachable(1, 1, s) ensures InOrder(s) {
        var slots, as_ :| |slots| == DEPTH && Runs(Init(1, 1, slots), as_, s);
        FirstInFirstOut(slots, as_, s);
      }
    } else if producers >= 2 {
      var s := TwoProducersBreak(producers, consumers);
    } else {
      var s := TwoConsumersBreak(producers, consumers);
    }
  }

  lemma SilentInOrder(s: Ring)
    requires Silent(s)
    ensures InOrder(s)
  {
  }
}
