/**
  The one-slot mailbox between cores (emu68/include/doorbell.h) as a machine of atomic steps: a store by a
  sender, a load by a waiter, and the compare-and-exchange by which a waiter claims the message, which may
  fail spuriously.  Any number of senders and waiters take steps in any order.
*/
module Doorbell {
  import opened Wrappers

  /** A waiter spins on the load, or has loaded a message it tries to claim, or has returned one. */
  datatype Waiter = Spinning | Claiming(msg: nat) | Returned(msg: nat)

  /** `val` is the shared word.  The rest is history: the nonzero messages sent, and which of them were
      received, overwritten, or are still in the slot. */
  datatype State = State(val: nat, waiters: seq<Waiter>,
                         sends: seq<nat>, received: seq<nat>, overwritten: seq<nat>, slot: Option<nat>)

  datatype Step =
    | Send(msg: nat)
    | Load(w: nat)
    | Exchange(w: nat, spuriousFailure: bool)
    | WaitAgain(w: nat)

  function Init(waiters: nat): State {
    State(0, seq(waiters, i => Spinning), [], [], [], None)
  }

  /** doorbell_send: zero is not sent. */
  function SendStep(s: State, msg: nat): State {
    if msg == 0 then s
    else s.(val := msg, sends := s.sends + [msg],
            overwritten := if s.slot.Some? then s.overwritten + [s.slot.value] else s.overwritten,
            slot := Some(|s.sends|))
  }

  /** A successful exchange stores 0 and returns the message; a failed one goes back to the load. */
  function ExchangeStep(s: State, w: nat, spuriousFailure: bool): State
    requires w < |s.waiters| && s.waiters[w].Claiming?
  {
    if !spuriousFailure && s.val == s.waiters[w].msg then
      s.(val := 0, waiters := s.waiters[w := Returned(s.waiters[w].msg)],
         received := if s.slot.Some? then s.received + [s.slot.value] else s.received,
         slot := None)
    else s.(waiters := s.waiters[w := Spinning])
  }

  /** A step that is not possible in a state changes nothing. */
  function Apply(s: State, step: Step): State {
    match step
    case Send(msg) => SendStep(s, msg)
    case Load(w) =>
      if w < |s.waiters| && s.waiters[w].Spinning? && s.val != 0 then s.(waiters := s.waiters[w := Claiming(s.val)]) else s
    case Exchange(w, spurious) =>
      if w < |s.waiters| && s.waiters[w].Claiming? then ExchangeStep(s, w, spurious) else s
    case WaitAgain(w) =>
      if w < |s.waiters| && s.waiters[w].Returned? then s.(waiters := s.waiters[w := Spinning]) else s
  }

  function Run(s: State, steps: seq<Step>): State
    decreases |steps|
  {
    if steps == [] then s else Run(Apply(s, steps[0]), steps[1..])
  }

  predicate Increasing(xs: seq<nat>) {
    forall i, j :: 0 <= i < j < |xs| ==> xs[i] < xs[j]
  }

  /** The books balance: the slot holds the last send or nothing, every send is received, overwritten or in
      the slot, none twice, and waiters hold only nonzero messages. */
  ghost predicate Balanced(s: State) {
    && (s.val == 0 <==> s.slot.None?)
    && (s.slot.Some? ==> s.slot.value == |s.sends| - 1 && s.sends[s.slot.value] == s.val)
    && (forall i :: 0 <= i < |s.sends| ==> s.sends[i] != 0)
    && |s.sends| == |s.received| + |s.overwritten| + (if s.slot.Some? then 1 else 0)
    && Increasing(s.received) && Increasing(s.overwritten)
    && (forall i :: i in s.received ==> i < |s.sends| && i !in s.overwritten && s.slot != Some(i))
    && (forall i :: i in s.overwritten ==> i < |s.sends| && s.slot != Some(i))
    && (forall i: nat :: i < |s.sends| ==> i in s.received || i in s.overwritten || s.slot == Some(i))
    && (forall w :: 0 <= w < |s.waiters| && !s.waiters[w].Spinning? ==> s.waiters[w].msg != 0)
  }

  lemma Appended(xs: seq<nat>, i: nat)
    requires Increasing(xs) && forall x :: x in xs ==> x < i
    ensures Increasing(xs + [i])
  {
    assert forall k :: 0 <= k < |xs| ==> xs[k] in xs;
  }

  /** What is no longer in the slot came before what is. */
  lemma SlotIsLast(s: State)
    requires Balanced(s) && s.slot.Some?
    ensures forall i :: i in s.received || i in s.overwritten ==> i < s.slot.value
  {
    forall i | i in s.received || i in s.overwritten
      ensures i < s.slot.value
    {
      assert s.slot != Some(i);
    }
  }

  lemma SendBalanced(s: State, msg: nat)
    requires Balanced(s)
    ensures Balanced(SendStep(s, msg))
  {
    var t := SendStep(s, msg);
    if msg != 0 {
      if s.slot.Some? {
        SlotIsLast(s);
        Appended(s.overwritten, s.slot.value);
      }
      forall i: nat | i < |t.sends|
        ensures i in t.received || i in t.overwritten || t.slot == Some(i)
      {
        if i < |s.sends| {
          assert i in s.received || i in s.overwritten || s.slot == Some(i);
        }
      }
    }
  }

  lemma ExchangeBalanced(s: State, w: nat, spurious: bool)
    requires Balanced(s) && w < |s.waiters| && s.waiters[w].Claiming?
    ensures Balanced(ExchangeStep(s, w, spurious))
  {
    var t := ExchangeStep(s, w, spurious);
    if !spurious && s.val == s.waiters[w].msg {
      SlotIsLast(s);
      Appended(s.received, s.slot.value);
      forall i: nat | i < |t.sends|
        ensures i in t.received || i in t.overwritten || t.slot == Some(i)
      {
        assert i in s.received || i in s.overwritten || s.slot == Some(i);
      }
    }
  }

  lemma ApplyBalanced(s: State, step: Step)
    requires Balanced(s)
    ensures Balanced(Apply(s, step))
  {
    match step
    case Send(msg) => SendBalanced(s, msg);
    case Exchange(w, spurious) =>
      if w < |s.waiters| && s.waiters[w].Claiming? { ExchangeBalanced(s, w, spurious); }
    case _ =>
  }

  lemma {:induction false} RunBalanced(s: State, steps: seq<Step>)
    requires Balanced(s)
    ensures Balanced(Run(s, steps))
    decreases |steps|
  {
    if steps != [] {
      ApplyBalanced(s, steps[0]);
      RunBalanced(Apply(s, steps[0]), steps[1..]);
    }
  }

  /** Conservation over every interleaving, with any spurious failures: nonzero sends are the messages
      received, those overwritten, and the one that may still be pending. */
  lemma Conservation(waiters: nat, steps: seq<Step>)
    ensures var s := Run(Init(waiters), steps);
      |s.sends| == |s.received| + |s.overwritten| + (if s.val != 0 then 1 else 0)
  {
    RunBalanced(Init(waiters), steps);
  }

  /** The messages of a run's sends, in order; a message of zero is not sent. */
  function SentBy(steps: seq<Step>): seq<nat> {
    if steps == [] then []
    else (if steps[0].Send? && steps[0].msg != 0 then [steps[0].msg] else []) + SentBy(steps[1..])
  }

  lemma {:induction false} SendsAppended(s: State, steps: seq<Step>)
    ensures Run(s, steps).sends == s.sends + SentBy(steps)
    decreases |steps|
  {
    if steps != [] {
      SendsAppended(Apply(s, steps[0]), steps[1..]);
    }
  }

  /** The history of sends is the history of the run, and the slot holds the last of it unless a waiter claimed
      that. */
  lemma SendsAreSent(waiters: nat, steps: seq<Step>)
    ensures var s := Run(Init(waiters), steps);
      s.sends == SentBy(steps) && (s.val != 0 ==> |SentBy(steps)| > 0 && s.val == SentBy(steps)[|SentBy(steps)| - 1])
  {
    hide Run, SentBy, Increasing;
    SendsAppended(Init(waiters), steps);
    RunBalanced(Init(waiters), steps);
  }

  /** Steps that neither send a message nor touch waiter w nor claim. */
  predicate Aside(steps: seq<Step>, w: nat) {
    forall i :: 0 <= i < |steps| ==>
      match steps[i]
      case Send(msg) => msg == 0
      case Load(v) => v != w
      case Exchange(v, spurious) => v != w && spurious
      case WaitAgain(v) => v != w
  }

  lemma {:induction false} AsideKeeps(s: State, steps: seq<Step>, w: nat)
    requires w < |s.waiters| && Aside(steps, w)
    ensures var t := Run(s, steps); |t.waiters| == |s.waiters| && t.val == s.val && t.waiters[w] == s.waiters[w]
    decreases |steps|
  {
    if steps != [] {
      assert Aside(steps[1..], w);
      AsideKeeps(Apply(s, steps[0]), steps[1..], w);
    }
  }

  /** Delivery: a message that is sent, loaded by a spinning waiter and claimed without a spurious failure is the
      one returned, and the slot is empty again, whatever other waiters do aside. */
  lemma Delivered(s: State, msg: nat, w: nat, xs: seq<Step>, ys: seq<Step>)
    requires w < |s.waiters| && s.waiters[w].Spinning? && msg != 0 && Aside(xs, w) && Aside(ys, w)
    ensures var t := Run(Apply(s, Send(msg)), xs);
      var u := Run(Apply(t, Load(w)), ys);
      |u.waiters| == |s.waiters| && Apply(u, Exchange(w, false)).waiters[w] == Returned(msg) && Apply(u, Exchange(w, false)).val == 0
  {
    AsideKeeps(Apply(s, Send(msg)), xs, w);
    var t := Run(Apply(s, Send(msg)), xs);
    AsideKeeps(Apply(t, Load(w)), ys, w);
  }

  /** Every return consumes exactly one send, one that nobody consumed before and later than all consumed
      before, and returns its value, which is not zero. */
  lemma ReturnConsumesOne(s: State, w: nat, spurious: bool)
    requires Balanced(s) && w < |s.waiters| && s.waiters[w].Claiming?
    ensures var t := Apply(s, Exchange(w, spurious));
      if t.waiters[w].Returned? then
        && |t.received| == |s.received| + 1 && t.received[..|s.received|] == s.received
        && var i := t.received[|s.received|];
           && i < |t.sends| && t.waiters[w].msg == t.sends[i] != 0
           && i !in s.received && (forall j :: j in s.received ==> j < i)
      else t.received == s.received && t.val == s.val
  {
    var t := Apply(s, Exchange(w, spurious));
    if t.waiters[w].Returned? {
      assert s.slot.Some?;
      var i := s.slot.value;
      forall j | j in s.received
        ensures j < i
      {
        assert j < |s.sends| && s.slot != Some(j);
      }
    }
  }

  /** A claim fails exactly when it fails spuriously or the word no longer holds the loaded value; a different
      message with the same value may be claimed, and is then the one counted. */
  lemma ClaimSucceedsIff(s: State, w: nat, spurious: bool)
    requires Balanced(s) && w < |s.waiters| && s.waiters[w].Claiming?
    ensures Apply(s, Exchange(w, spurious)).waiters[w].Returned?
       <==> !spurious && s.slot.Some? && s.sends[s.slot.value] == s.waiters[w].msg
  {
  }
}
