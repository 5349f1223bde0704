/** Which runs of pushes and pops the receiver process goes through: exactly those that push messages
    the server makes for forwarding and pop from a non-empty queue. What QueueRuns says can happen to a
    queue, good or bad, therefore happens to the process. */
module ProtocolRuns {
  import opened Messages
  import opened OrderedMap
  import opened SearchTree
  import opened Protocol
  import opened ProtocolInvariants
  import opened ProtocolTheorems
  import opened Forwarding
  import Queue
  import Servers
  import Runs = QueueRuns

  type Events = seq<Runs.Event<MessageFormat>>

  /** The server makes the message for its number, and the receivers forward it. */
  predicate Producible(m: MessageFormat) {
    m == MessageFormat(0, 0, 10, m.messageData) && m.messageData % 20 == 10
  }

  ghost predicate Feasible(es: Events)
    decreases |es|
  {
    es != [] ==>
      && Feasible(es[..|es| - 1])
      && match es[|es| - 1]
         case Push(m) => Producible(m)
         case Pop => Runs.Run(es[..|es| - 1]).q != map[]
  }

  // ------------------------------------------------------------ only feasible runs occur

  lemma FeasibleSnoc(es: Events, e: Runs.Event<MessageFormat>)
    requires Feasible(es)
    requires match e case Push(m) => Producible(m) case Pop => Runs.Run(es).q != map[]
    ensures Feasible(es + [e])
  {
    assert (es + [e])[..|es|] == es;
  }

  lemma InsertedIsProducible(s: Config, t: nat)
    requires DataInv(s) && QueueInv(s) && t < |s.pc| && s.pc[t].RInsert?
    ensures Producible(s.pc[t].m)
  {
    assert s.pc[t].m in Carried(s.pc[t]);
    assert KnowsQueue(s.pc[t], s.queue);
    ServerMessage(s, s.pc[t].m);
  }

  lemma RemovesFromNonEmpty(s: Config, t: nat)
    requires QueueInv(s) && t < |s.pc| && s.pc[t].SRemove?
    ensures Runs.Run(s.events).q != map[]
  {
    assert KnowsQueue(s.pc[t], s.queue);
    assert LeastKey(s.queue) in ToMap(s.queue) by { LeastIsMinimum(s.queue); }
  }

  lemma OtherActsKeepEvents(s: Config, t: nat, c: Choice)
    requires Enabled(s, t, c) && (Acquires(s, t) || (!s.pc[t].RInsert? && !s.pc[t].SRemove?))
    ensures ThreadStep(s, t, c).events == s.events
  {
  }

  lemma NextKeepsFeasible(s: Config, a: Action, s': Config)
    requires Inv(s) && Feasible(s.events) && Next(s, a, s')
    ensures Feasible(s'.events)
  {
    hide Feasible, LockInv, DataInv, QueueInv, WakeInv;
    if a.Thread? {
      if !Acquires(s, a.t) && s.pc[a.t].RInsert? {
        InsertedIsProducible(s, a.t);
        FeasibleSnoc(s.events, Runs.Push(s.pc[a.t].m));
      } else if !Acquires(s, a.t) && s.pc[a.t].SRemove? {
        RemovesFromNonEmpty(s, a.t);
        FeasibleSnoc(s.events, Runs.Pop);
      } else {
        OtherActsKeepEvents(s, a.t, a.c);
      }
    }
  }

  lemma {:induction false} StepsAreFeasible(receivers: nat, s: Config, n: nat)
    requires ReachableIn(receivers, s, n)
    ensures Feasible(s.events)
    decreases n
  {
    hide Inv, Next;
    if n == 0 {
    } else {
      var before, a :| ReachableIn(receivers, before, n - 1) && Next(before, a, s);
      StepsAreFeasible(receivers, before, n - 1);
      StepsSatisfyInv(receivers, before, n - 1);
      NextKeepsFeasible(before, a, s);
    }
  }

  // ------------------------------------------------------------ moving one thread

  lemma ReachableNext(receivers: nat, s: Config, a: Action, s': Config)
    requires Reachable(receivers, s) && Next(s, a, s')
    ensures Reachable(receivers, s')
  {
    var n :| ReachableIn(receivers, s, n);
    StepFurther(receivers, s, n, a, s');
  }

  lemma StepFurther(receivers: nat, s: Config, n: nat, a: Action, s': Config)
    requires ReachableIn(receivers, s, n) && Next(s, a, s')
    ensures ReachableIn(receivers, s', n + 1)
  {
    hide Next;
  }

  /** State s with thread t at p. */
  function At(s: Config, t: nat, p: Pc): Config
    requires t < |s.pc|
  {
    s.(pc := s.pc[t := p])
  }

  /** The thread at p needs no lock, or a leaf lock that is free. */
  ghost predicate Unlocked(s: Config, p: Pc) {
    p.Wants().Needs? ==> p.Wants().lock.IsLeaf() && p.Wants().lock !in s.owner
  }

  /** A thread can take the leaf lock it needs and act. */
  lemma Acts(receivers: nat, s: Config, t: nat, c: Choice)
    requires Reachable(receivers, s) && Enabled(s, t, c) && Unlocked(s, s.pc[t])
    ensures Reachable(receivers, Act(s, t, c))
  {
    match s.pc[t].Wants()
    case NoLock => ReachableNext(receivers, s, Thread(t, c), Act(s, t, c));
    case Needs(l) =>
      var locked := s.(owner := s.owner[l := t]);
      LocksLeaf(s, t, c, l);
      ActsLocked(s, t, c, l);
      ReachableNext(receivers, s, Thread(t, c), locked);
      ReachableNext(receivers, locked, Thread(t, c), Act(locked, t, c));
  }

  lemma LocksLeaf(s: Config, t: nat, c: Choice, l: Lock)
    requires Enabled(s, t, c) && s.pc[t].Wants() == Needs(l) && l.IsLeaf() && l !in s.owner
    ensures Next(s, Thread(t, c), s.(owner := s.owner[l := t]))
  {
    AfterLockHolds(s.pc[t], l);
    assert s.pc[t := s.pc[t]] == s.pc;
  }

  lemma ActsLocked(s: Config, t: nat, c: Choice, l: Lock)
    requires t < |s.pc| && s.pc[t].Wants() == Needs(l) && l.IsLeaf() && l !in s.owner
    ensures var locked := s.(owner := s.owner[l := t]);
            Next(locked, Thread(t, c), Act(locked, t, c)) && Act(locked, t, c) == Act(s, t, c)
  {
    ReleasedWasHeld(s, s.pc[t], l);
    assert s.owner[l := t] - Released(s, s.pc[t]) == s.owner - Released(s, s.pc[t]);
  }

  /** The action at p changes nothing but the place of the thread. */
  ghost predicate IsQuiet(s: Config, p: Pc) {
    && !p.RReceive? && !p.RSave? && !p.RInsert? && !p.RNotify? && !p.SRemove? && !p.SSend?
    && MessageMutex !in Released(s, p) && TcpMutex !in Released(s, p)
  }

  /** What an action does depends on the queue, not on where the threads are. */
  lemma SameQueue(s: Config, s': Config, p: Pc, c: Choice)
    requires s.queue == s'.queue
    ensures Control(s, p, c) == Control(s', p, c) && Released(s, p) == Released(s', p)
  {
  }

  lemma QuietAct(s: Config, t: nat, p: Pc, c: Choice)
    requires t < |s.pc| && IsQuiet(s, p) && Unlocked(s, p)
    ensures Act(At(s, t, p), t, c) == At(s, t, Control(s, p, c))
  {
    hide Control, Released;
    var here := At(s, t, p);
    SameQueue(s, here, p, c);
    forall l | l in Released(s, p) ensures l !in s.owner {
      ReleasedWasHeld(s, p, l);
    }
    assert s.owner - Released(s, p) == s.owner;
    assert here.pc[t := Control(s, p, c)] == s.pc[t := Control(s, p, c)];
  }

  lemma Goes(receivers: nat, s: Config, t: nat, p: Pc, c: Choice)
    requires t < |s.pc| && Reachable(receivers, At(s, t, p))
    requires Enabled(At(s, t, p), t, c) && IsQuiet(s, p) && Unlocked(s, p)
    ensures Reachable(receivers, At(s, t, Control(s, p, c)))
  {
    Acts(receivers, At(s, t, p), t, c);
    QuietAct(s, t, p, c);
  }

  /** A thread takes the mutex it waits for. */
  lemma Takes(receivers: nat, s: Config, t: nat, p: Pc, l: Lock)
    requires t < |s.pc| && Reachable(receivers, At(s, t, p))
    requires p.Wants() == Needs(l) && l !in s.owner
    ensures Reachable(receivers, At(s.(owner := s.owner[l := t]), t, AfterLock(p)))
  {
    var taken := At(s.(owner := s.owner[l := t]), t, AfterLock(p));
    assert At(s, t, p).pc[t := AfterLock(p)] == taken.pc;
    ReachableNext(receivers, At(s, t, p), Thread(t, First), taken);
  }

  // ------------------------------------------------------------ every feasible run occurs

  /** Nobody is inside a critical section; the sender and the first receiver are about to begin a round. */
  ghost predicate Ready(s: Config) {
    |s.pc| > 1 && s.pc[0] == SLock && s.pc[1] == ROpen && s.owner == map[]
  }

  lemma Begin(receivers: nat) returns (s: Config)
    requires receivers > 0
    ensures Reachable(receivers, s) && Ready(s) && s.events == [] && s.delivered == []
  {
    var s0 := Start(receivers);
    assert ReachableIn(receivers, s0, 0);
    assert At(s0, 0, SBegin) == s0;
    Goes(receivers, s0, 0, SBegin, First);
    var s1 := At(s0, 0, SLock);
    assert At(s1, 1, RBegin) == s1;
    Goes(receivers, s1, 1, RBegin, First);
    s := At(s1, 1, ROpen);
  }

  /** How many messages the server sends before the one numbered n. */
  ghost function Ahead(count: uint64, n: uint64): nat {
    if count <= n then n - count else n + TWO_TO_THE_64 - count
  }

  lemma AheadDrops(count: uint64, n: uint64)
    requires count != n
    ensures Ahead(Servers.NextCount(count), n) < Ahead(count, n)
  {
  }

  /** The server gets to every number, if need be by letting its counter wrap around. */
  lemma {:induction false} Serves(receivers: nat, s: Config, n: uint64) returns (s': Config)
    requires Reachable(receivers, s)
    ensures Reachable(receivers, s') && MakeMessageDiv20(n) in s'.net
    ensures s' == s.(count := s'.count, used := s'.used, net := s'.net)
    decreases Ahead(s.count, n)
  {
    hide Reachable, Ahead;
    s' := ServerSends(s);
    ReachableNext(receivers, s, Server, s');
    if s.count == n {
    } else {
      AheadDrops(s.count, n);
      s' := Serves(receivers, s', n);
    }
  }

  lemma EntersRound(receivers: nat, s: Config) returns (s': Config)
    requires Reachable(receivers, s) && Ready(s)
    ensures s' == s.(owner := map[MessageMutex := 1])
    ensures Reachable(receivers, At(s', 1, RLogSelect))
  {
    assert At(s, 1, ROpen) == s;
    Goes(receivers, s, 1, ROpen, First);
    Takes(receivers, s, 1, RLock, MessageMutex);
    s' := s.(owner := map[MessageMutex := 1]);
    assert s.owner[MessageMutex := 1] == s'.owner;
  }

  lemma GetsThrough(receivers: nat, s: Config)
    requires |s.pc| > 1 && s.owner == map[MessageMutex := 1]
    requires Reachable(receivers, At(s, 1, RLogSelect))
    ensures Reachable(receivers, At(s, 1, RReceive))
  {
    hide Reachable;
    Goes(receivers, s, 1, RLogSelect, First);
    Goes(receivers, s, 1, RSelect, Second);
    Goes(receivers, s, 1, RCommand, Second);
    Goes(receivers, s, 1, RServer, Second);
  }

  /** A receiver gets a message from the network. */
  lemma Receives(receivers: nat, s: Config, m: MessageFormat) returns (s': Config)
    requires |s.pc| > 1 && s.owner == map[MessageMutex := 1] && m in s.net
    requires Reachable(receivers, At(s, 1, RReceive))
    ensures s' == s.(delivered := s.delivered + [m])
    ensures Reachable(receivers, At(s', 1, RSave(m)))
  {
    hide Reachable;
    Acts(receivers, At(s, 1, RReceive), 1, Deliver(m));
    s' := s.(delivered := s.delivered + [m]);
    assert s.owner - {} == s.owner;
    assert Act(At(s, 1, RReceive), 1, Deliver(m)) == At(s', 1, RLogReceived(m));
    Goes(receivers, s', 1, RLogReceived(m), First);
  }

  /** A receiver keeps the message. */
  lemma Saves(receivers: nat, s: Config, m: MessageFormat) returns (s': Config)
    requires |s.pc| > 1 && s.owner == map[MessageMutex := 1]
    requires Reachable(receivers, At(s, 1, RSave(m)))
    ensures s' == s.(store := Insert(s.store, m.messageId, m, ()), received := s.received + [m])
    ensures Reachable(receivers, At(s', 1, RDecide(m)))
  {
    hide Reachable;
    Acts(receivers, At(s, 1, RSave(m)), 1, First);
    s' := s.(store := Insert(s.store, m.messageId, m, ()), received := s.received + [m]);
    assert s.owner - {StoreMutex} == s.owner;
    assert Act(At(s, 1, RSave(m)), 1, First) == At(s', 1, RDecide(m));
  }

  lemma EntersPush(receivers: nat, s: Config, m: MessageFormat) returns (s': Config)
    requires |s.pc| > 1 && s.owner == map[MessageMutex := 1] && SendViaTcpRequired(m)
    requires Reachable(receivers, At(s, 1, RDecide(m)))
    ensures s' == s.(owner := map[MessageMutex := 1, TcpMutex := 1])
    ensures Reachable(receivers, At(s', 1, RLogPush(m)))
  {
    hide Reachable;
    Goes(receivers, s, 1, RDecide(m), First);
    Takes(receivers, s, 1, RLockTcp(m), TcpMutex);
    s' := s.(owner := map[MessageMutex := 1, TcpMutex := 1]);
    assert s.owner[TcpMutex := 1] == s'.owner;
  }

  /** A receiver pushes a message. */
  lemma Pushes(receivers: nat, s: Config, m: MessageFormat) returns (s': Config)
    requires |s.pc| > 1 && s.owner == map[MessageMutex := 1, TcpMutex := 1]
    requires Reachable(receivers, At(s, 1, RLogPush(m)))
    ensures s' == s.(queue := Insert(s.queue, Size(s.queue), m, ()), events := s.events + [Runs.Push(m)])
    ensures Reachable(receivers, At(s', 1, RNotify))
  {
    hide Reachable;
    Goes(receivers, s, 1, RLogPush(m), First);
    Goes(receivers, s, 1, RSize(m), First);
    var p := RInsert(m, Size(s.queue));
    Acts(receivers, At(s, 1, p), 1, First);
    s' := s.(queue := Insert(s.queue, Size(s.queue), m, ()), events := s.events + [Runs.Push(m)]);
    assert s.owner - {QueueMutex} == s.owner;
    assert Act(At(s, 1, p), 1, First) == At(s', 1, RNotify);
  }

  lemma LeavesPush(receivers: nat, s: Config) returns (s': Config)
    requires |s.pc| > 1 && s.pc[0] == SLock && s.owner == map[MessageMutex := 1, TcpMutex := 1]
    requires Reachable(receivers, At(s, 1, RNotify))
    ensures s' == s.(owner := map[MessageMutex := 1])
    ensures Reachable(receivers, At(s', 1, RLogEnd))
  {
    hide Reachable;
    Acts(receivers, At(s, 1, RNotify), 1, First);
    assert s.owner - {} == s.owner;
    assert Act(At(s, 1, RNotify), 1, First) == At(s, 1, RUnlockTcp);
    Acts(receivers, At(s, 1, RUnlockTcp), 1, First);
    s' := s.(owner := map[MessageMutex := 1]);
    assert s.owner - {TcpMutex} == s'.owner;
    assert Act(At(s, 1, RUnlockTcp), 1, First) == At(s', 1, RLogEnd);
  }

  lemma LeavesRound(receivers: nat, s: Config) returns (s': Config)
    requires |s.pc| > 1 && s.owner == map[MessageMutex := 1]
    requires Reachable(receivers, At(s, 1, RLogEnd))
    ensures s' == At(s.(owner := map[]), 1, ROpen) && Reachable(receivers, s')
  {
    hide Reachable;
    Goes(receivers, s, 1, RLogEnd, First);
    Acts(receivers, At(s, 1, RUnlock), 1, First);
    assert s.owner - {MessageMutex} == map[];
    s' := At(s.(owner := map[]), 1, ROpen);
    assert Act(At(s, 1, RUnlock), 1, First) == s';
  }

  /** A round of the first receiver in which it receives and pushes a message. */
  lemma RoundPushes(receivers: nat, s: Config, m: MessageFormat) returns (s': Config)
    requires Reachable(receivers, s) && Ready(s) && Producible(m)
    ensures Reachable(receivers, s') && Ready(s')
    ensures s'.events == s.events + [Runs.Push(m)] && s'.delivered == s.delivered + [m]
  {
    hide Reachable;
    s' := Serves(receivers, s, m.messageData);
    s' := EntersRound(receivers, s');
    GetsThrough(receivers, s');
    s' := Receives(receivers, s', m);
    s' := Saves(receivers, s', m);
    s' := EntersPush(receivers, s', m);
    s' := Pushes(receivers, s', m);
    s' := LeavesPush(receivers, s');
    s' := LeavesRound(receivers, s');
  }

  /** A round of the first receiver in which it receives a message that is not to be forwarded. */
  lemma RoundSaves(receivers: nat, s: Config, m: MessageFormat) returns (s': Config)
    requires Reachable(receivers, s) && Ready(s) && FromSomeNumber(m) && m.messageId != 10
    ensures Reachable(receivers, s') && Ready(s') && s'.delivered == s.delivered + [m]
  {
    hide Reachable;
    s' := Serves(receivers, s, m.messageData);
    s' := EntersRound(receivers, s');
    GetsThrough(receivers, s');
    s' := Receives(receivers, s', m);
    s' := Saves(receivers, s', m);
    Goes(receivers, s', 1, RDecide(m), First);
    s' := LeavesRound(receivers, s');
  }

  /** The server makes the message for its number. */
  predicate FromSomeNumber(m: MessageFormat) {
    m == MessageFormat(0, 0, m.messageData % 20, m.messageData)
  }

  lemma {:induction false} CanBeDelivered(receivers: nat, ms: seq<MessageFormat>) returns (s: Config)
    requires receivers > 0 && forall m | m in ms :: FromSomeNumber(m)
    ensures Reachable(receivers, s) && Ready(s) && s.delivered == ms
    decreases |ms|
  {
    hide Reachable;
    if ms == [] {
      s := Begin(receivers);
    } else {
      var n := |ms| - 1;
      s := CanBeDelivered(receivers, ms[..n]);
      assert ms == ms[..n] + [ms[n]] && ms[n] in ms;
      if ms[n].messageId == 10 {
        s := RoundPushes(receivers, s, ms[n]);
      } else {
        s := RoundSaves(receivers, s, ms[n]);
      }
    }
  }

  /** The network is free to lose, duplicate and reorder: with at least one receiver, a sequence of messages
      can be what the socket delivers exactly when each of them is the server's message for its number. */
  lemma AnyDeliveryOccurs(receivers: nat, ms: seq<MessageFormat>)
    requires receivers > 0
    ensures (exists s :: Reachable(receivers, s) && s.delivered == ms) <==> forall m | m in ms :: FromSomeNumber(m)
  {
    if forall m | m in ms :: FromSomeNumber(m) {
      var s := CanBeDelivered(receivers, ms);
    }
    if s :| Reachable(receivers, s) && s.delivered == ms {
      DeliveredIsFromServer(receivers, s);
    }
  }

  lemma DeliveredIsFromServer(receivers: nat, s: Config)
    requires Reachable(receivers, s)
    ensures forall m | m in s.delivered :: FromSomeNumber(m)
  {
    ReachableSatisfiesInv(receivers, s);
    forall m | m in s.delivered ensures FromSomeNumber(m) {
      DeliveredWasSent(s, m);
      ServerMessage(s, m);
    }
  }

  lemma DeliveredWasSent(s: Config, m: MessageFormat)
    requires DataInv(s) && DeliveryInv(s) && m in s.delivered
    ensures m in s.net
  {
    if m in InHand(s) {
      assert m in Carried(s.pc[s.owner[MessageMutex]]);
    }
  }

  lemma EntersSending(receivers: nat, s: Config) returns (s': Config)
    requires Reachable(receivers, s) && Ready(s)
    ensures s' == s.(owner := map[TcpMutex := 0])
    ensures Reachable(receivers, At(s', 0, STest))
  {
    assert At(s, 0, SLock) == s;
    Takes(receivers, s, 0, SLock, TcpMutex);
    s' := s.(owner := map[TcpMutex := 0]);
    assert s.owner[TcpMutex := 0] == s'.owner;
  }

  /** The sender reads the least entry. */
  lemma Reads(receivers: nat, s: Config)
    requires |s.pc| > 1 && s.owner == map[TcpMutex := 0] && s.queue.Branch?
    requires Reachable(receivers, At(s, 0, STest))
    ensures Reachable(receivers, At(s, 0, SRemove(LeastKey(s.queue), LeastValue(s.queue))))
  {
    hide Reachable;
    SizeZero(s.queue);
    Goes(receivers, s, 0, STest, First);
    Goes(receivers, s, 0, SIndex, First);
    Goes(receivers, s, 0, SValue(LeastKey(s.queue)), First);
  }

  /** The sender removes the least entry. */
  lemma Pops(receivers: nat, s: Config) returns (s': Config)
    requires |s.pc| > 1 && s.owner == map[TcpMutex := 0] && s.queue.Branch?
    requires Reachable(receivers, At(s, 0, SRemove(LeastKey(s.queue), LeastValue(s.queue))))
    ensures s'.pc == s.pc && s'.owner == s.owner && s'.events == s.events + [Runs.Pop]
    ensures Reachable(receivers, At(s', 0, SSize(LeastValue(s.queue))))
  {
    hide Reachable;
    var m := LeastValue(s.queue);
    var p := SRemove(LeastKey(s.queue), m);
    Acts(receivers, At(s, 0, p), 0, First);
    s' := s.(queue := Delete(s.queue, LeastKey(s.queue)), events := s.events + [Runs.Pop], popped := s.popped + [m]);
    assert s.owner - {QueueMutex} == s.owner;
    assert Act(At(s, 0, p), 0, First) == At(s', 0, SSize(m));
  }

  lemma Checks(receivers: nat, s: Config, m: MessageFormat)
    requires |s.pc| > 1 && s.owner == map[TcpMutex := 0] && SendViaTcpRequired(m)
    requires Reachable(receivers, At(s, 0, SSize(m)))
    ensures Reachable(receivers, At(s, 0, SLogSend(m)))
  {
    hide Reachable;
    Goes(receivers, s, 0, SSize(m), First);
    Goes(receivers, s, 0, SLogSize(m), First);
    Goes(receivers, s, 0, SCheck(m), First);
  }

  /** The sender offers the message to the socket. */
  lemma Offers(receivers: nat, s: Config, m: MessageFormat) returns (s': Config)
    requires |s.pc| > 1 && s.owner == map[TcpMutex := 0]
    requires Reachable(receivers, At(s, 0, SLogSend(m)))
    ensures s' == s.(offered := s.offered + [m])
    ensures Reachable(receivers, At(s', 0, SLogEnd))
  {
    hide Reachable;
    Goes(receivers, s, 0, SLogSend(m), First);
    Acts(receivers, At(s, 0, SSend(m)), 0, First);
    s' := s.(offered := s.offered + [m]);
    assert s.owner - {} == s.owner;
    assert Act(At(s, 0, SSend(m)), 0, First) == At(s', 0, SLogEnd);
  }

  lemma LeavesSending(receivers: nat, s: Config) returns (s': Config)
    requires |s.pc| > 1 && s.owner == map[TcpMutex := 0]
    requires Reachable(receivers, At(s, 0, SLogEnd))
    ensures s' == At(s.(owner := map[]), 0, SLock) && Reachable(receivers, s')
  {
    hide Reachable;
    Goes(receivers, s, 0, SLogEnd, First);
    Acts(receivers, At(s, 0, SUnlock), 0, First);
    assert s.owner - {TcpMutex} == map[];
    s' := At(s.(owner := map[]), 0, SLock);
    assert Act(At(s, 0, SUnlock), 0, First) == s';
  }

  /** A non-empty queue in memory, whose least entry is to be forwarded. */
  lemma QueueToPop(receivers: nat, s: Config)
    requires Reachable(receivers, s) && Runs.Run(s.events).q != map[]
    ensures s.queue.Branch? && SendViaTcpRequired(LeastValue(s.queue))
  {
    ReachableSatisfiesInv(receivers, s);
    LeastWasPushed(s);
  }

  /** A round of the sender. */
  lemma RoundPops(receivers: nat, s: Config) returns (s': Config)
    requires Reachable(receivers, s) && Ready(s) && Runs.Run(s.events).q != map[]
    ensures Reachable(receivers, s') && Ready(s')
    ensures s'.events == s.events + [Runs.Pop]
  {
    hide Reachable;
    QueueToPop(receivers, s);
    s' := EntersSending(receivers, s);
    Reads(receivers, s');
    s' := Pops(receivers, s');
    Checks(receivers, s', LeastValue(s.queue));
    s' := Offers(receivers, s', LeastValue(s.queue));
    s' := LeavesSending(receivers, s');
  }

  lemma {:induction false} Occurs(receivers: nat, es: Events) returns (s: Config)
    requires receivers > 0 && Feasible(es)
    ensures Reachable(receivers, s) && Ready(s) && s.events == es
    decreases |es|
  {
    hide Reachable;
    if es == [] {
      s := Begin(receivers);
    } else {
      var n := |es| - 1;
      s := Occurs(receivers, es[..n]);
      assert es == es[..n] + [es[n]];
      match es[n]
      case Push(m) => s := RoundPushes(receivers, s, m);
      case Pop => s := RoundPops(receivers, s);
    }
  }

  /** With at least one receiver, the process goes through a run of pushes and pops, and comes to rest
      between receptions, exactly when every message pushed is one the server makes for forwarding and
      every pop finds the queue not empty. */
  lemma FeasibleRunsOccur(receivers: nat, es: Events)
    requires receivers > 0
    ensures (exists s :: Reachable(receivers, s) && s.events == es) <==> Feasible(es)
    ensures (exists s :: Reachable(receivers, s) && s.events == es && Ready(s)) <==> Feasible(es)
  {
    if Feasible(es) {
      var s := Occurs(receivers, es);
    }
    if s :| Reachable(receivers, s) && s.events == es {
      var n :| ReachableIn(receivers, s, n);
      StepsAreFeasible(receivers, s, n);
    }
  }

  // ------------------------------------------------------------ what the process can do to its messages

  lemma {:induction false} PushesAreFeasible(vs: seq<MessageFormat>, n: nat)
    requires n <= |vs| && forall v | v in vs :: Producible(v)
    ensures Feasible(Runs.PushEvents(vs)[..n])
  {
    var es := Runs.PushEvents(vs);
    if n == 0 {
    } else {
      PushesAreFeasible(vs, n - 1);
      assert vs[n - 1] in vs;
      FeasibleSnoc(es[..n - 1], es[n - 1]);
      assert es[..n] == es[..n - 1] + [es[n - 1]];
    }
  }

  lemma {:induction false} PopsAreFeasible(vs: seq<MessageFormat>, m: nat)
    requires m <= |vs| && forall v | v in vs :: Producible(v)
    ensures Feasible(Runs.PushEvents(vs) + Runs.PopEvents(m))
  {
    if m == 0 {
      PushesAreFeasible(vs, |vs|);
      assert Runs.PushEvents(vs) + Runs.PopEvents(0) == Runs.PushEvents(vs)[..|vs|];
    } else {
      PopsAreFeasible(vs, m - 1);
      Runs.PopsDeliver(vs, m - 1);
      Queue.TailMeaning(vs, m - 1);
      assert m - 1 in Queue.Tail(vs, m - 1);
      FeasibleSnoc(Runs.PushEvents(vs) + Runs.PopEvents(m - 1), Runs.Pop);
      Runs.PopsSnoc(Runs.PushEvents(vs), m);
    }
  }

  /** A state between receptions shows the run: what was received for forwarding, sent, and kept. */
  lemma ShowsRun(receivers: nat, s: Config)
    requires Reachable(receivers, s) && Ready(s)
    ensures var r := Runs.Run(s.events);
            ToForward(s.received) == r.pushed && s.popped == r.popped && ToMap(s.queue) == r.q
  {
    PushesAreTheForwardedMessages(receivers, s);
    ReachableSatisfiesInv(receivers, s);
  }

  /** The process can receive four messages for forwarding and lose the fourth. */
  lemma ProcessCanLoseAMessage(receivers: nat, a: MessageFormat, b: MessageFormat, c: MessageFormat, d: MessageFormat)
    returns (s: Config)
    requires receivers > 0 && Producible(a) && Producible(b) && Producible(c) && Producible(d)
    ensures Reachable(receivers, s) && Ready(s) && ToForward(s.received) == [a, b, c, d]
    ensures s.popped == [a] && ToMap(s.queue) == map[1 := b, 2 := c]
  {
    hide Reachable;
    var es := Runs.PushEvents([a, b, c]) + Runs.PopEvents(1);
    PopsAreFeasible([a, b, c], 1);
    FeasibleSnoc(es, Runs.Push(d));
    s := Occurs(receivers, es + [Runs.Push(d)]);
    ShowsRun(receivers, s);
    Runs.APushCanBeLost(a, b, c, d);
  }

  /** The process can send the fourth message before the third. */
  lemma ProcessCanReorder(receivers: nat, a: MessageFormat, b: MessageFormat, c: MessageFormat, d: MessageFormat)
    returns (s: Config)
    requires receivers > 0 && Producible(a) && Producible(b) && Producible(c) && Producible(d)
    ensures Reachable(receivers, s) && Ready(s) && ToForward(s.received) == [a, b, c, d]
    ensures s.popped == [a, b, d] && ToMap(s.queue) == map[2 := c]
  {
    hide Reachable;
    var es := Runs.PushEvents([a, b, c]) + Runs.PopEvents(2);
    PopsAreFeasible([a, b, c], 2);
    FeasibleSnoc(es, Runs.Push(d));
    Runs.PushAfterTwoPops(a, b, c, d);
    assert 1 in Runs.Run(es + [Runs.Push(d)]).q;
    FeasibleSnoc(es + [Runs.Push(d)], Runs.Pop);
    s := Occurs(receivers, es + [Runs.Push(d)] + [Runs.Pop]);
    ShowsRun(receivers, s);
    Runs.APushCanOvertake(a, b, c, d);
  }
}
