/** The blocking IPC rendezvous: a sender waits for an idle mailbox, writes its message,
    posts it, waits until it is taken and frees the mailbox; a receiver waits for a
    posted message, copies it and marks it taken.

    Any number of senders and receivers step in any order, one load, store or word copy
    at a time.  The protocol keeps its promise exactly when there is one of each. */
module Rendezvous {

  type Msg = m: seq<nat> | |m| == 4 witness [0, 0, 0, 0]

  datatype MailState = Idle | MsgPending | Taken

  datatype Sender =
    | SIdle
    | SWaiting(m: Msg)                // waits for an idle mailbox
    | SWriting(m: Msg, w: nat)        // w words written
    | SPosted(m: Msg)                 // waits for it to be taken
    | SAcked(m: Msg)                  // saw it taken; mailbox not yet freed

  datatype Receiver =
    | RIdle
    | RWaiting                        // waits for a posted message
    | RReading(got: seq<nat>)         // words copied so far

  /** `started`: messages of all sends called; `taken`: messages receives have taken;
      `done`: messages of all sends that have returned. */
  datatype Mailbox = Mailbox(state: MailState, message: Msg, s: seq<Sender>, r: seq<Receiver>,
                             started: seq<Msg>, taken: seq<Msg>, done: seq<Msg>)

  datatype Action = CallSend(i: nat, m: Msg) | CallReceive(j: nat) | StepS(i: nat) | StepR(j: nat)

  predicate Enabled(b: Mailbox, a: Action) {
    match a
    case CallSend(i, _) => i < |b.s| && b.s[i].SIdle?
    case CallReceive(j) => j < |b.r| && b.r[j].RIdle?
    case StepS(i) => i < |b.s| && !b.s[i].SIdle? && (b.s[i].SWriting? ==> b.s[i].w <= 4)
    case StepR(j) => j < |b.r| && !b.r[j].RIdle? && (b.r[j].RReading? ==> |b.r[j].got| <= 4)
  }

  function Do(b: Mailbox, a: Action): Mailbox
    requires Enabled(b, a)
  {
    match a
    case CallSend(i, m) => b.(s := b.s[i := SWaiting(m)], started := b.started + [m])
    case CallReceive(j) => b.(r := b.r[j := RWaiting])
    case StepS(i) =>
      (match b.s[i]
       case SIdle => b
       case SWaiting(m) => if b.state.Idle? then b.(s := b.s[i := SWriting(m, 0)]) else b
       case SWriting(m, w) =>
         if w < 4 then b.(message := b.message[w := m[w]], s := b.s[i := SWriting(m, w + 1)])
         else b.(state := MsgPending, s := b.s[i := SPosted(m)])
       case SPosted(m) => if b.state.Taken? then b.(s := b.s[i := SAcked(m)]) else b
       case SAcked(m) => b.(state := Idle, s := b.s[i := SIdle], done := b.done + [m]))
    case StepR(j) =>
      (match b.r[j]
       case RIdle => b
       case RWaiting => if b.state.MsgPending? then b.(r := b.r[j := RReading([])]) else b
       case RReading(got) =>
         if |got| < 4 then b.(r := b.r[j := RReading(got + [b.message[|got|]])])
         else b.(state := Taken, r := b.r[j := RIdle], taken := b.taken + [got]))
  }

  function Init(senders: nat, receivers: nat, m: Msg): Mailbox {
    Mailbox(Idle, m, seq(senders, _ => SIdle), seq(receivers, _ => RIdle), [], [], [])
  }

  ghost predicate Runs(b: Mailbox, as_: seq<Action>, b': Mailbox)
    decreases |as_|
  {
    if as_ == [] then b' == b else Enabled(b, as_[0]) && Runs(Do(b, as_[0]), as_[1..], b')
  }

  ghost predicate Reachable(senders: nat, receivers: nat, b: Mailbox) {
    exists m, as_ :: Runs(Init(senders, receivers, m), as_, b)
  }

  /** Every returned send's message was taken, and nothing was taken that was not sent:
      as often as it was sent, no more. */
  ghost predicate Honest(b: Mailbox) {
    multiset(b.done) <= multiset(b.taken) <= multiset(b.started)
  }

  // ----- One sender, one receiver -----------------------------------------

  ghost predicate Inv(b: Mailbox) {
    && |b.s| == 1 && |b.r| == 1
    && match b.state
       case Idle =>
         && !b.r[0].RReading? && b.taken == b.done
         && (match b.s[0]
             case SIdle => b.started == b.done
             case SWaiting(m) => b.started == b.done + [m]
             case SWriting(m, w) => w <= 4 && b.message[..w] == m[..w] && b.started == b.done + [m]
             case _ => false)
       case MsgPending =>
         && b.s[0].SPosted? && b.message == b.s[0].m && b.taken == b.done && b.started == b.done + [b.message]
         && (b.r[0].RReading? ==> |b.r[0].got| <= 4 && b.r[0].got == b.message[..|b.r[0].got|])
       case Taken =>
         && (b.s[0].SPosted? || b.s[0].SAcked?) && !b.r[0].RReading?
         && b.started == b.taken == b.done + [b.s[0].m]
  }

  lemma SenderKeeps(b: Mailbox, a: Action)
    requires Inv(b) && Enabled(b, a) && (a.StepS? || a.CallSend?)
    ensures Inv(Do(b, a))
  {
    if a.StepS? && b.s[0].SWriting? {
      var m, w := b.s[0].m, b.s[0].w;
      if w < 4 {
        assert b.message[w := m[w]][..w + 1] == m[..w + 1];
      } else {
        assert b.message[..4] == b.message && m[..4] == m;
      }
    }
  }

  lemma ReceiverKeeps(b: Mailbox, a: Action)
    requires Inv(b) && Enabled(b, a) && (a.StepR? || a.CallReceive?)
    ensures Inv(Do(b, a))
  {
    if a.StepR? && b.r[0].RReading? {
      var got := b.r[0].got;
      if |got| < 4 {
        assert b.message[..|got| + 1] == b.message[..|got|] + [b.message[|got|]];
      } else {
        assert b.message[..4] == b.message;
      }
    }
  }

  lemma {:induction false} RunInv(b: Mailbox, as_: seq<Action>, b': Mailbox)
    requires Inv(b) && Runs(b, as_, b')
    ensures Inv(b')
    decreases |as_|
  {
    hide Inv, Do;
    if as_ != [] {
      if as_[0].StepS? || as_[0].CallSend? { SenderKeeps(b, as_[0]); } else { ReceiverKeeps(b, as_[0]); }
      RunInv(Do(b, as_[0]), as_[1..], b');
    }
  }

  /** With one sender and one receiver the n-th send returns only after the n-th receive
      has taken exactly the n-th message, and receives take what was sent, in order. */
  lemma SendMeansTaken(m: Msg, as_: seq<Action>, b: Mailbox)
    requires Runs(Init(1, 1, m), as_, b)
    ensures b.done <= b.taken <= b.started && |b.started| <= |b.done| + 1
    ensures Honest(b)
  {
    RunInv(Init(1, 1, m), as_, b);
    PrefixMultiset(b.done, b.taken);
    PrefixMultiset(b.taken, b.started);
  }

  lemma PrefixMultiset(x: seq<Msg>, y: seq<Msg>)
    requires x <= y
    ensures multiset(x) <= multiset(y)
  {
    assert y == x + y[|x|..];
  }

  // ----- More of either ---------------------------------------------------

  lemma RunsStep(b: Mailbox, a: Action, as_: seq<Action>, b': Mailbox)
    requires Enabled(b, a) && Runs(Do(b, a), as_, b')
    ensures Runs(b, [a] + as_, b')
  {
    assert ([a] + as_)[1..] == as_;
  }

  lemma {:induction false} RunsConcat(b: Mailbox, as_: seq<Action>, b1: Mailbox, cs: seq<Action>, b2: Mailbox)
    requires Runs(b, as_, b1) && Runs(b1, cs, b2)
    ensures Runs(b, as_ + cs, b2)
    decreases |as_|
  {
    if as_ == [] {
      assert as_ + cs == cs;
    } else {
      RunsConcat(Do(b, as_[0]), as_[1..], b1, cs, b2);
      assert (as_ + cs)[1..] == as_[1..] + cs;
    }
  }

  /** Sender `i`, already past its wait, writes all its words and posts. */
  lemma WriteAndPost(b: Mailbox, i: nat, m: Msg) returns (as_: seq<Action>, b': Mailbox)
    requires i < |b.s| && b.s[i] == SWriting(m, 0)
    ensures Runs(b, as_, b') && b' == b.(state := MsgPending, message := m, s := b.s[i := SPosted(m)])
  {
    var b1 := Do(b, StepS(i));
    var b2 := Do(b1, StepS(i));
    var b3 := Do(b2, StepS(i));
    var b4 := Do(b3, StepS(i));
    b' := Do(b4, StepS(i));
    assert b4.message == m;
    assert Runs(b', [], b');
    RunsStep(b4, StepS(i), [], b');
    RunsStep(b3, StepS(i), [StepS(i)], b');
    RunsStep(b2, StepS(i), [StepS(i)] + [StepS(i)], b');
    as_ := [StepS(i)] + ([StepS(i)] + [StepS(i)]);
    RunsStep(b1, StepS(i), as_, b');
    as_ := [StepS(i)] + as_;
    RunsStep(b, StepS(i), as_, b');
    as_ := [StepS(i)] + as_;
  }

  /** Receiver `j`, already past its wait, copies all words and marks them taken. */
  lemma ReadAndTake(b: Mailbox, j: nat) returns (as_: seq<Action>, b': Mailbox)
    requires j < |b.r| && b.r[j] == RReading([])
    ensures Runs(b, as_, b') && b' == b.(state := Taken, r := b.r[j := RIdle], taken := b.taken + [b.message])
  {
    var b1 := Do(b, StepR(j));
    var b2 := Do(b1, StepR(j));
    var b3 := Do(b2, StepR(j));
    var b4 := Do(b3, StepR(j));
    b' := Do(b4, StepR(j));
    assert b4.r[j].got == b.message;
    assert Runs(b', [], b');
    RunsStep(b4, StepR(j), [], b');
    RunsStep(b3, StepR(j), [StepR(j)], b');
    RunsStep(b2, StepR(j), [StepR(j)] + [StepR(j)], b');
    as_ := [StepR(j)] + ([StepR(j)] + [StepR(j)]);
    RunsStep(b1, StepR(j), as_, b');
    as_ := [StepR(j)] + as_;
    RunsStep(b, StepR(j), as_, b');
    as_ := [StepR(j)] + as_;
  }

  /** One more step at the end of a run. */
  lemma Then(b0: Mailbox, as_: seq<Action>, b: Mailbox, a: Action) returns (as1: seq<Action>, b1: Mailbox)
    requires Runs(b0, as_, b) && Enabled(b, a)
    ensures Runs(b0, as1, b1) && b1 == Do(b, a)
  {
    b1 := Do(b, a);
    assert Runs(b1, [], b1);
    RunsStep(b, a, [], b1);
    as1 := as_ + ([a] + []);
    RunsConcat(b0, as_, b, [a] + [], b1);
  }

  /** Two senders may both find the mailbox idle; the first then returns although nobody
      took its message. */
  lemma TwoSendersBreak(senders: nat, receivers: nat) returns (b: Mailbox)
    requires senders >= 2 && receivers >= 1
    ensures Reachable(senders, receivers, b) && !Honest(b)
  {
    hide Do;
    var x: Msg, y: Msg := [1, 1, 1, 1], [2, 2, 2, 2];
    var b1 := BothWriting(senders, receivers, x, y);
    var m, as_ :| Runs(Init(senders, receivers, m), as_, b1);
    var b0 := Init(senders, receivers, m);
    var cs, b2 := WriteAndPost(b1, 0, x);
    RunsConcat(b0, as_, b1, cs, b2);
    var ds, b3 := WriteAndPost(b2, 1, y);
    RunsConcat(b0, as_ + cs, b2, ds, b3);
    var es, b4 := TakeOne(b0, as_ + cs + ds, b3, 0);
    es, b := Finish(b0, es, b4, 0, x);
    assert x != y && multiset(b.done)[x] == 1 && multiset(b.taken)[x] == 0;
  }

  lemma BothWriting(senders: nat, receivers: nat, x: Msg, y: Msg) returns (b: Mailbox)
    requires senders >= 2 && receivers >= 1
    ensures Reachable(senders, receivers, b)
    ensures |b.s| == senders && |b.r| == receivers && b.s[0] == SWriting(x, 0) && b.s[1] == SWriting(y, 0)
    ensures b.r[0].RIdle? && b.taken == [] && b.done == []
  {
    var b0 := Init(senders, receivers, x);
    assert Runs(b0, [], b0);
    var as_, b1 := Then(b0, [], b0, CallSend(0, x));
    as_, b1 := Then(b0, as_, b1, CallSend(1, y));
    as_, b1 := Then(b0, as_, b1, StepS(0));
    as_, b1 := Then(b0, as_, b1, StepS(1));
    b := b1;
  }

  /** An idle receiver takes the posted message. */
  lemma TakeOne(b0: Mailbox, as_: seq<Action>, b: Mailbox, j: nat) returns (as1: seq<Action>, b1: Mailbox)
    requires Runs(b0, as_, b) && j < |b.r| && b.r[j].RIdle? && b.state.MsgPending?
    ensures Runs(b0, as1, b1) && b1 == b.(state := Taken, taken := b.taken + [b.message])
  {
    var cs, c := Then(b0, as_, b, CallReceive(j));
    cs, c := Then(b0, cs, c, StepR(j));
    var ds;
    ds, b1 := ReadAndTake(c, j);
    as1 := cs + ds;
    RunsConcat(b0, cs, c, ds, b1);
    assert b1.r == b.r;
  }

  /** A sender that sees its message taken frees the mailbox and returns. */
  lemma Finish(b0: Mailbox, as_: seq<Action>, b: Mailbox, i: nat, m: Msg) returns (as1: seq<Action>, b1: Mailbox)
    requires Runs(b0, as_, b) && i < |b.s| && b.s[i] == SPosted(m) && b.state.Taken?
    ensures Runs(b0, as1, b1) && b1 == b.(state := Idle, s := b.s[i := SIdle], done := b.done + [m])
  {
    as1, b1 := Then(b0, as_, b, StepS(i));
    as1, b1 := Then(b0, as1, b1, StepS(i));
  }

  /** Neither waits for nothing: in every reachable state of one sender and one receiver in
      which both are idle, a send and a receive together hand any message over and both
      return. */
  lemma HandsOver(m0: Msg, as_: seq<Action>, b: Mailbox, m: Msg) returns (bs: seq<Action>, b': Mailbox)
    requires Runs(Init(1, 1, m0), as_, b) && |b.s| == 1 && |b.r| == 1 && b.s[0].SIdle? && b.r[0].RIdle?
    ensures Runs(b, bs, b') && b'.started == b.started + [m] && b'.taken == b.taken + [m] && b'.done == b.done + [m]
    ensures b'.state.Idle? && b'.s == b.s && b'.r == b.r
  {
    RunInv(Init(1, 1, m0), as_, b);
    assert b.state.Idle? && Runs(b, [], b);
    bs, b' := Then(b, [], b, CallSend(0, m));
    bs, b' := Then(b, bs, b', StepS(0));
    hide Do;
    var cs, b1 := WriteAndPost(b', 0, m);
    RunsConcat(b, bs, b', cs, b1);
    bs, b' := TakeOne(b, bs + cs, b1, 0);
    bs, b' := Finish(b, bs, b', 0, m);
    assert b'.s == b.s;
  }

  /** Two receivers may both find the message posted and both take it. */
  lemma TwoReceiversBreak(senders: nat, receivers: nat) returns (b: Mailbox)
    requires senders >= 1 && receivers >= 2
    ensures Reachable(senders, receivers, b) && !Honest(b)
  {
    var x: Msg := [1, 1, 1, 1];
    var b0 := Init(senders, receivers, x);
    assert Runs(b0, [], b0);
    var as_, b1 := Then(b0, [], b0, CallSend(0, x));
    as_, b1 := Then(b0, as_, b1, StepS(0));
    var cs, b2 := WriteAndPost(b1, 0, x);
    as_ := as_ + cs;
    RunsConcat(b0, as_[..|as_| - |cs|], b1, cs, b2);
    assert as_[..|as_| - |cs|] + cs == as_;
    var b3 := BothReading(b0, as_, b2, x);
    var ds :| Runs(b0, ds, b3);
    var es, b4 := ReadAndTake(b3, 0);
    RunsConcat(b0, ds, b3, es, b4);
    var fs;
    fs, b := ReadAndTake(b4, 1);
    RunsConcat(b0, ds + es, b4, fs, b);
    assert multiset(b.taken)[x] == 2 && multiset(b.started)[x] == 1;
  }

  lemma BothReading(b0: Mailbox, as_: seq<Action>, b: Mailbox, x: Msg) returns (b1: Mailbox)
    requires Runs(b0, as_, b) && |b.r| >= 2 && b.r[0].RIdle? && b.r[1].RIdle? && b.state.MsgPending?
    ensures exists cs :: Runs(b0, cs, b1)
    ensures |b1.r| >= 2 && b1.r[0] == RReading([]) && b1.r[1] == RReading([])
    ensures b1.message == b.message && b1.taken == b.taken && b1.started == b.started
  {
    var cs;
    cs, b1 := Then(b0, as_, b, CallReceive(0));
    cs, b1 := Then(b0, cs, b1, CallReceive(1));
    cs, b1 := Then(b0, cs, b1, StepR(0));
    cs, b1 := Then(b0, cs, b1, StepR(1));
  }

  /** The rendezvous keeps its promise in every reachable state exactly when it has a
      single sender and a single receiver. */
  lemma HonestIffOneToOne(senders: nat, receivers: nat)
    requires senders >= 1 && receivers >= 1
    ensures (forall b :: Reachable(senders, receivers, b) ==> Honest(b)) <==> senders == 1 && receivers == 1
  {
    hide Do, Honest;
    if senders == 1 && receivers == 1 {
      forall b | Reachable(1, 1, b) ensures Honest(b) {
        var m, as_ :| Runs(Init(1, 1, m), as_, b);
        SendMeansTaken(m, as_, b);
      }
    } else if senders >= 2 {
      var b := TwoSendersBreak(senders, receivers);
    } else {
      var b := TwoReceiversBreak(senders, receivers);
    }
  }
}
