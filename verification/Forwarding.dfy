/** From reception to the TCP queue: which messages are pushed, in which order, and when they
    come out in the order they came in. */
module Forwarding {
  import opened Messages
  import opened OrderedMap
  import opened SearchTree
  import opened Protocol
  import opened ProtocolInvariants
  import opened ProtocolTheorems
  import Runs = QueueRuns

  /** The received messages that have to be forwarded, in order. */
  ghost function ToForward(ms: seq<MessageFormat>): seq<MessageFormat> {
    if ms == [] then []
    else ToForward(ms[..|ms| - 1]) + (if SendViaTcpRequired(ms[|ms| - 1]) then [ms[|ms| - 1]] else [])
  }

  /** The messages to be forwarded are those with id 10, all of them, each as often as it was received. */
  lemma {:induction false} ForwardCount(ms: seq<MessageFormat>, m: MessageFormat)
    ensures multiset(ToForward(ms))[m] == if m.messageId == 10 then multiset(ms)[m] else 0
    decreases |ms|
  {
    if ms == [] {
    } else {
      ForwardCount(ms[..|ms| - 1], m);
      assert ms == ms[..|ms| - 1] + [ms[|ms| - 1]];
    }
  }

  /** The messages to be forwarded are at increasing places of ms: exactly at those with the id 10. */
  ghost predicate SelectsIdTen(ms: seq<MessageFormat>, selected: seq<MessageFormat>, places: seq<nat>) {
    && |places| == |selected|
    && (forall j, k | 0 <= j < k < |places| :: places[j] < places[k])
    && (forall j | 0 <= j < |places| :: places[j] < |ms| && ms[places[j]] == selected[j])
    && (forall i | 0 <= i < |ms| :: i in places <==> ms[i].messageId == 10)
  }

  lemma {:induction false} ForwardPlaces(ms: seq<MessageFormat>) returns (places: seq<nat>)
    ensures SelectsIdTen(ms, ToForward(ms), places)
    decreases |ms|
  {
    if ms == [] {
      places := [];
    } else {
      var n := |ms| - 1;
      places := ForwardPlaces(ms[..n]);
      SelectNext(ms, ToForward(ms[..n]), places);
      if SendViaTcpRequired(ms[n]) {
        places := places + [n];
      }
    }
  }

  lemma SelectNext(ms: seq<MessageFormat>, selected: seq<MessageFormat>, places: seq<nat>)
    requires ms != [] && SelectsIdTen(ms[..|ms| - 1], selected, places)
    ensures var m := ms[|ms| - 1];
            if m.messageId == 10 then SelectsIdTen(ms, selected + [m], places + [|ms| - 1]) else SelectsIdTen(ms, selected, places)
  {
    var n := |ms| - 1;
    assert forall i | 0 <= i < n :: ms[i] == ms[..n][i];
    assert n !in places;
  }

  /** The message that a receiver has saved but not pushed yet. */
  ghost function PendingAt(p: Pc): seq<MessageFormat> {
    match p
    case RDecide(m) => if SendViaTcpRequired(m) then [m] else []
    case RLockTcp(m) => [m]
    case RLogPush(m) => [m]
    case RSize(m) => [m]
    case RInsert(m, _) => [m]
    case _ => []
  }

  ghost function Pending(s: Config): seq<MessageFormat> {
    if MessageMutex in s.owner && s.owner[MessageMutex] < |s.pc| then PendingAt(s.pc[s.owner[MessageMutex]]) else []
  }

  /** What had to be forwarded has been pushed in order, but for the one message in the hands of the
      owner of the message mutex. */
  ghost predicate ForwardInv(s: Config) {
    ToForward(s.received) == Runs.Run(s.events).pushed + Pending(s)
  }

  lemma ControlPending(s: Config, p: Pc, c: Choice)
    requires KnowsQueue(p, s.queue) && !p.RSave? && !p.RInsert?
    requires p.Wants().Needs? ==> p.Wants().lock.IsLeaf()
    ensures PendingAt(Control(s, p, c)) == PendingAt(p)
  {
  }

  lemma AcquireKeepsForward(s: Config, t: nat, c: Choice)
    requires LockInv(s) && ForwardInv(s) && Enabled(s, t, c) && Acquires(s, t)
    ensures ForwardInv(ThreadStep(s, t, c))
  {
    var s' := ThreadStep(s, t, c);
    if s.pc[t].Wants() == Needs(MessageMutex) {
      assert s.pc[t] == RLock;
      assert Pending(s') == Pending(s) == [];
    } else {
      assert PendingAt(AfterLock(s.pc[t])) == PendingAt(s.pc[t]);
      assert Pending(s') == Pending(s);
    }
  }

  /** A thread without the message mutex neither receives nor pushes. */
  lemma OtherActKeepsForward(s: Config, t: nat, c: Choice)
    requires LockInv(s) && QueueInv(s) && ForwardInv(s) && Enabled(s, t, c) && !Acquires(s, t)
    requires !s.pc[t].HoldsMessage()
    ensures ForwardInv(ThreadStep(s, t, c))
  {
    ActNeedsOnlyLeaf(s, t, c);
    var s', p := Act(s, t, c), s.pc[t];
    ReleasedWasHeld(s, p, MessageMutex);
    if MessageMutex in s.owner {
      var o := s.owner[MessageMutex];
      assert HoldsOuter(s.pc[o], MessageMutex);
      NotifyHolds(s.pc, o, MessageMutex);
    }
    assert Pending(s') == Pending(s);
    if p.SRemove? {
      Runs.RunSnoc(Runs.Init(), s.events, Runs.Pop);
    }
  }

  /** After an action inside the message critical section the pending message is the one at the new place. */
  lemma OwnerPends(s: Config, t: nat, c: Choice)
    requires LockInv(s) && t < |s.pc| && s.pc[t].HoldsMessage()
    ensures Pending(s) == PendingAt(s.pc[t])
    ensures MessageMutex !in Released(s, s.pc[t]) ==> Pending(Act(s, t, c)) == PendingAt(Control(s, s.pc[t], c))
    ensures MessageMutex in Released(s, s.pc[t]) ==> Pending(Act(s, t, c)) == []
  {
  }

  lemma PushedSnoc(es: seq<Runs.Event<MessageFormat>>, m: MessageFormat)
    ensures Runs.Run(es + [Runs.Push(m)]).pushed == Runs.Run(es).pushed + [m]
  {
    Runs.RunSnoc(Runs.Init(), es, Runs.Push(m));
  }

  lemma ForwardSnoc(ms: seq<MessageFormat>, m: MessageFormat)
    ensures ToForward(ms + [m]) == ToForward(ms) + PendingAt(RDecide(m))
  {
    assert (ms + [m])[..|ms|] == ms;
  }

  lemma SaveKeepsForward(s: Config, t: nat, c: Choice)
    requires LockInv(s) && ForwardInv(s) && Enabled(s, t, c) && !Acquires(s, t) && s.pc[t].RSave?
    ensures ForwardInv(ThreadStep(s, t, c))
  {
    ActNeedsOnlyLeaf(s, t, c);
    OwnerPends(s, t, c);
    ForwardSnoc(s.received, s.pc[t].m);
  }

  lemma PushKeepsForward(s: Config, t: nat, c: Choice)
    requires LockInv(s) && ForwardInv(s) && Enabled(s, t, c) && !Acquires(s, t) && s.pc[t].RInsert?
    ensures ForwardInv(ThreadStep(s, t, c))
  {
    ActNeedsOnlyLeaf(s, t, c);
    OwnerPends(s, t, c);
    PushedSnoc(s.events, s.pc[t].m);
  }

  lemma OwnerActKeepsForward(s: Config, t: nat, c: Choice)
    requires LockInv(s) && QueueInv(s) && ForwardInv(s) && Enabled(s, t, c) && !Acquires(s, t)
    requires s.pc[t].HoldsMessage() && !s.pc[t].RSave? && !s.pc[t].RInsert?
    ensures ForwardInv(ThreadStep(s, t, c))
  {
    ActNeedsOnlyLeaf(s, t, c);
    OwnerPends(s, t, c);
    assert KnowsQueue(s.pc[t], s.queue);
    ControlPending(s, s.pc[t], c);
  }

  lemma NextKeepsForward(s: Config, a: Action, s': Config)
    requires Inv(s) && ForwardInv(s) && Next(s, a, s')
    ensures ForwardInv(s')
  {
    if a.Thread? {
      if Acquires(s, a.t) {
        AcquireKeepsForward(s, a.t, a.c);
      } else if s.pc[a.t].RSave? {
        SaveKeepsForward(s, a.t, a.c);
      } else if s.pc[a.t].RInsert? {
        PushKeepsForward(s, a.t, a.c);
      } else if s.pc[a.t].HoldsMessage() {
        OwnerActKeepsForward(s, a.t, a.c);
      } else {
        OtherActKeepsForward(s, a.t, a.c);
      }
    }
  }

  lemma StartSatisfiesForward(receivers: nat)
    ensures ForwardInv(Start(receivers))
  {
  }

  lemma {:induction false} StepsSatisfyForward(receivers: nat, s: Config, n: nat)
    requires ReachableIn(receivers, s, n)
    ensures ForwardInv(s)
    decreases n
  {
    hide ForwardInv, Next;
    if n == 0 {
      StartSatisfiesForward(receivers);
    } else {
      var before, a :| ReachableIn(receivers, before, n - 1) && Next(before, a, s);
      StepsSatisfyForward(receivers, before, n - 1);
      ReachableKeepsForward(receivers, before, n - 1, a, s);
    }
  }

  lemma ReachableKeepsForward(receivers: nat, s: Config, n: nat, a: Action, s': Config)
    requires ReachableIn(receivers, s, n) && ForwardInv(s) && Next(s, a, s')
    ensures ForwardInv(s')
  {
    StepsSatisfyInv(receivers, s, n);
    NextKeepsForward(s, a, s');
  }

  /** The pushes of every run are the received messages with the forwarding id, in order of reception;
      while a receiver is at work the last one may still be on its way. Between receptions they are the
      messages with id 10 among all that the socket has delivered. */
  lemma PushesAreTheForwardedMessages(receivers: nat, s: Config)
    requires Reachable(receivers, s)
    ensures ToForward(s.received) == Runs.Run(s.events).pushed + Pending(s) && |Pending(s)| <= 1
    ensures MessageMutex !in s.owner ==> exists places :: SelectsIdTen(s.delivered, Runs.Run(s.events).pushed, places)
    ensures MessageMutex !in s.owner ==> Runs.Run(s.events).pushed == ToForward(s.received) && s.received == s.delivered
  {
    var n :| ReachableIn(receivers, s, n);
    StepsSatisfyForward(receivers, s, n);
    EveryDeliveryIsSaved(receivers, s);
    var places := ForwardPlaces(s.received);
    if MessageMutex !in s.owner {
      assert Runs.Run(s.events).pushed == ToForward(s.received);
      assert SelectsIdTen(s.delivered, Runs.Run(s.events).pushed, places);
    }
  }

  /** End-to-end order. Between receptions, if every push happened while the queue was empty or had not
      been popped since it was empty, then the popped messages and then the stored ones in key order
      are exactly the received messages to be forwarded. For distinct messages only then. */
  lemma ForwardedInOrder(receivers: nat, s: Config)
    requires Reachable(receivers, s) && MessageMutex !in s.owner
    ensures Runs.Disciplined(s.events) ==> s.popped + InOrder(ToMap(s.queue)) == ToForward(s.received)
    ensures Runs.Distinct(ToForward(s.received)) && s.popped + InOrder(ToMap(s.queue)) == ToForward(s.received)
            ==> Runs.Disciplined(s.events)
  {
    PushesAreTheForwardedMessages(receivers, s);
    ReachableSatisfiesInv(receivers, s);
    if Runs.Disciplined(s.events) {
      Runs.DisciplinedIsFifo(s.events);
    }
    if Runs.Distinct(ToForward(s.received)) {
      Runs.FifoIffDisciplined(s.events);
    }
  }

  /** Messages are popped at most as often as they were received, with multiplicity. */
  lemma NothingIsInvented(receivers: nat, s: Config)
    requires Reachable(receivers, s)
    ensures multiset(s.popped) + multiset(InOrder(ToMap(s.queue))) <= multiset(ToForward(s.received)) <= multiset(s.received)
    ensures multiset(s.received) <= multiset(s.delivered)
  {
    PushesAreTheForwardedMessages(receivers, s);
    ReachableSatisfiesInv(receivers, s);
    Runs.Conservation(s.events);
    Runs.AcceptedWerePushed(s.events);
    ForwardSelects(s.received);
    EveryDeliveryIsSaved(receivers, s);
  }

  lemma ForwardSelects(ms: seq<MessageFormat>)
    ensures multiset(ToForward(ms)) <= multiset(ms)
  {
    forall m ensures multiset(ToForward(ms))[m] <= multiset(ms)[m] {
      ForwardCount(ms, m);
    }
  }
}
