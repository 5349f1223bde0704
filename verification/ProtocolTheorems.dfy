/** What holds in every reachable state of the receiver process, for any number of receivers,
    any interleaving and any behaviour of the network. */
module ProtocolTheorems {
  import opened Messages
  import opened OrderedMap
  import opened SearchTree
  import opened Protocol
  import opened ProtocolInvariants
  import Queue
  import Runs = QueueRuns

  // ------------------------------------------------------------ the queue in memory is a queue run

  /** The tree in memory and the popped messages are those of the run of pushes and pops, so every
      theorem about queue runs holds of the process; and what was accepted is what was popped
      and what is still stored. */
  lemma QueueRefinement(receivers: nat, s: Config)
    requires Reachable(receivers, s)
    ensures var r := Runs.Run(s.events);
            && ToMap(s.queue) == r.q && s.popped == r.popped
            && multiset(r.accepted) == multiset(s.popped) + multiset(InOrder(ToMap(s.queue)))
            && multiset(r.accepted) <= multiset(r.pushed)
  {
    ReachableSatisfiesInv(receivers, s);
    Runs.Conservation(s.events);
    Runs.AcceptedWerePushed(s.events);
  }

  /** What the sender has read so far inside its critical section. */
  ghost predicate ReadsLeast(p: Pc, q: map<nat, MessageFormat>) {
    match p
    case SIndex => q.Keys != {}
    case SValue(i) => q.Keys != {} && i == Min(q.Keys)
    case SRemove(i, m) => q.Keys != {} && i == Min(q.Keys) && m == q[i]
    case _ => true
  }

  /** The sender works on a non-empty queue only: the least key it read is still the least when it
      reads the value and when it removes the entry, no null pointer is followed, and no message
      with a wrong id is taken. */
  lemma SenderIsSafe(receivers: nat, s: Config)
    requires Reachable(receivers, s)
    ensures |s.pc| > 0 && !s.pc[0].SCrashed? && !s.pc[0].SLogBad?
    ensures ReadsLeast(s.pc[0], ToMap(s.queue))
  {
    ReachableSatisfiesInv(receivers, s);
    KnowledgeOfLeast(s.pc[0], s.queue);
  }

  lemma KnowledgeOfLeast(p: Pc, t: Shape)
    requires Sorted(t) && KnowsQueue(p, t)
    ensures ReadsLeast(p, ToMap(t))
  {
    if t.Branch? { LeastIsMinimum(t); }
  }

  /** The size that a receiver read is still the size when it inserts, so its insertion is a push;
      and two threads are never both between taking and releasing the TCP mutex. */
  lemma PushIsAtomic(receivers: nat, s: Config, t: nat, u: nat)
    requires Reachable(receivers, s) && t < |s.pc| && u < |s.pc|
    ensures s.pc[t].RInsert? ==>
              InsertIfAbsent(ToMap(s.queue), s.pc[t].at, s.pc[t].m) == Queue.PushMap(ToMap(s.queue), s.pc[t].m)
    ensures s.pc[t].HoldsTcp() && s.pc[u].HoldsTcp() ==> t == u
  {
    ReachableSatisfiesInv(receivers, s);
    InsertsAtSize(s.pc[t], s.queue);
    if s.pc[t].HoldsTcp() && s.pc[u].HoldsTcp() { TcpExclusion(s, t, u); }
  }

  lemma InsertsAtSize(p: Pc, t: Shape)
    requires Sorted(t) && KnowsQueue(p, t)
    ensures p.RInsert? ==> InsertIfAbsent(ToMap(t), p.at, p.m) == Queue.PushMap(ToMap(t), p.m)
  {
    SizeIsKeyCount(t);
  }

  /** No wake-up is lost: a parked sender without a pending notification sleeps on an empty queue,
      unless the receiver that has just filled it still holds the TCP mutex and is about to notify. */
  lemma NoLostWakeUp(receivers: nat, s: Config)
    requires Reachable(receivers, s)
    requires s.pc != [] && s.pc[0] == SParked(false)
    ensures TcpMutex !in s.owner ==> ToMap(s.queue) == map[]
    ensures ToMap(s.queue) != map[] ==>
              TcpMutex in s.owner && s.owner[TcpMutex] < |s.pc| && s.pc[s.owner[TcpMutex]].RNotify?
  {
    ReachableSatisfiesInv(receivers, s);
  }

  /** A step changes a container, or acts on what a container holds, only with the lock of that container. */
  lemma ContainersAreLocked(s: Config, t: nat, c: Choice, q: Shape)
    requires Enabled(s, t, c)
    ensures ThreadStep(s, t, c).store != s.store ==> StoreMutex in s.owner && s.owner[StoreMutex] == t
    ensures ThreadStep(s, t, c).queue != s.queue ==> QueueMutex in s.owner && s.owner[QueueMutex] == t
    ensures ThreadStep(s.(queue := q), t, c).pc != ThreadStep(s, t, c).pc ==> QueueMutex in s.owner && s.owner[QueueMutex] == t
  {
    hide Control, Released, Notified;
    ActsOnQueue(s, s.(queue := q), s.pc[t], c);
  }

  lemma ActsOnQueue(s: Config, s': Config, p: Pc, c: Choice)
    ensures Control(s, p, c) != Control(s', p, c) ==> p.Wants() == Needs(QueueMutex)
  {
  }

  // ------------------------------------------------------------ deadlock freedom

  /** Thread t can take a step, not counting spurious wake-ups. */
  ghost predicate CanRun(s: Config, t: nat) {
    Enabled(s, t, First)
  }

  /** Thread t cannot run because thread u owns the lock it needs. */
  ghost predicate WaitsFor(s: Config, t: nat, u: nat) {
    && t < |s.pc| && !CanRun(s, t)
    && s.pc[t].Wants().Needs? && s.pc[t].Wants().lock in s.owner && s.owner[s.pc[t].Wants().lock] == u
  }

  /** Each thread of the chain waits for the next one. */
  ghost predicate IsChain(s: Config, ts: seq<nat>) {
    ts != [] && forall i | 0 < i < |ts| :: WaitsFor(s, ts[i - 1], ts[i])
  }

  /** A waiting thread waits for the owner of the lock it needs. */
  lemma StuckWaits(s: Config, t: nat)
    requires LockInv(s) && QueueInv(s) && t < |s.pc| && !CanRun(s, t)
    requires s.pc[t] != RClosed && s.pc[t] != SParked(false)
    ensures s.pc[t].Wants().Needs? && s.pc[t].Wants().lock in s.owner
    ensures WaitsFor(s, t, s.owner[s.pc[t].Wants().lock])
  {
    assert KnowsQueue(s.pc[t], s.queue);
  }

  /** Waiting goes up in the order of the locks: whoever waits for the owner of a lock l, and itself
      waits for another thread, waits for a lock above l. */
  lemma OwnerWaitsHigher(s: Config, l: Lock)
    requires LockInv(s) && l in s.owner && !CanRun(s, s.owner[l])
    ensures s.pc[s.owner[l]] != RClosed && s.pc[s.owner[l]] != SParked(false)
    ensures s.pc[s.owner[l]].Wants().Needs? ==> l.Rank() < s.pc[s.owner[l]].Wants().lock.Rank()
  {
    var p := s.pc[s.owner[l]];
    if HoldsOuter(p, l) && p.Wants().Needs? { LockOrder(p, l); }
  }

  /** From the owner of any lock the waits-for chain ends, after at most two waits, at a thread that can run. */
  lemma {:induction false} OwnerLeadsToRunner(s: Config, l: Lock) returns (ts: seq<nat>)
    requires LockInv(s) && QueueInv(s) && l in s.owner
    ensures IsChain(s, ts) && ts[0] == s.owner[l] && CanRun(s, ts[|ts| - 1])
    ensures |ts| <= 3 - l.Rank()
    decreases 2 - l.Rank()
  {
    var t := s.owner[l];
    if CanRun(s, t) {
      ts := [t];
    } else {
      OwnerWaitsHigher(s, l);
      StuckWaits(s, t);
      var rest := OwnerLeadsToRunner(s, s.pc[t].Wants().lock);
      ts := [t] + rest;
    }
  }

  /** In every reachable state every thread that is not asleep and has not left its loop is at the
      start of a waits-for chain, of at most three waits, to a thread that can run. */
  lemma NobodyIsStuck(receivers: nat, s: Config, t: nat) returns (ts: seq<nat>)
    requires Reachable(receivers, s) && t < |s.pc|
    requires s.pc[t] != RClosed && s.pc[t] != SParked(false)
    ensures IsChain(s, ts) && ts[0] == t && CanRun(s, ts[|ts| - 1])
    ensures |ts| <= 4
  {
    hide LockInv, DataInv, DeliveryInv, OfferInv, QueueInv, WakeInv;
    ReachableSatisfiesInv(receivers, s);
    if CanRun(s, t) {
      ts := [t];
    } else {
      StuckWaits(s, t);
      var rest := OwnerLeadsToRunner(s, s.pc[t].Wants().lock);
      ts := [t] + rest;
    }
  }

  /** The rank of the lock that a waiting thread needs. */
  ghost function WaitRank(s: Config, t: nat): nat {
    if t < |s.pc| && s.pc[t].Wants().Needs? then s.pc[t].Wants().lock.Rank() else 3
  }

  lemma WaitGoesUp(s: Config, t: nat, u: nat)
    requires LockInv(s) && WaitsFor(s, t, u)
    ensures WaitRank(s, t) < WaitRank(s, u) || CanRun(s, u)
  {
    if !CanRun(s, u) { OwnerWaitsHigher(s, s.pc[t].Wants().lock); }
  }

  lemma {:induction false} ChainGoesUp(s: Config, ts: seq<nat>)
    requires LockInv(s) && IsChain(s, ts) && |ts| > 1
    ensures !CanRun(s, ts[0])
    ensures CanRun(s, ts[|ts| - 1]) || WaitRank(s, ts[0]) < WaitRank(s, ts[|ts| - 1])
    decreases |ts|
  {
    var n := |ts| - 1;
    assert WaitsFor(s, ts[0], ts[1]);
    WaitGoesUp(s, ts[n - 1], ts[n]);
    if n == 1 {
    } else {
      assert WaitsFor(s, ts[n - 1], ts[n]);
      ChainGoesUp(s, ts[..n]);
    }
  }

  /** The waits-for relation has no cycle in any reachable state. */
  lemma NoWaitsForCycle(receivers: nat, s: Config, ts: seq<nat>)
    requires Reachable(receivers, s) && IsChain(s, ts) && |ts| > 1
    ensures ts[0] != ts[|ts| - 1]
  {
    ReachableSatisfiesInv(receivers, s);
    ChainGoesUp(s, ts);
  }

  /** All receivers have left their loop and the sender sleeps. */
  ghost predicate Quiescent(s: Config) {
    |s.pc| > 0 && s.pc[0] == SParked(false) && forall t | 0 < t < |s.pc| :: s.pc[t] == RClosed
  }

  /** Deadlock freedom: some thread can run in every reachable state, except when all receivers have
      left their loop and the sender sleeps; and then the queue has been sent completely. */
  lemma DeadlockFree(receivers: nat, s: Config)
    requires Reachable(receivers, s)
    ensures (exists t :: CanRun(s, t)) <==> !Quiescent(s)
    ensures Quiescent(s) ==> s.owner == map[] && ToMap(s.queue) == map[]
    ensures Quiescent(s) ==> multiset(s.popped) == multiset(Runs.Run(s.events).accepted)
  {
    ReachableSatisfiesInv(receivers, s);
    if l :| l in s.owner {
      var ts := OwnerLeadsToRunner(s, l);
    } else if !Quiescent(s) {
      var t := IdleThreadRuns(s);
    }
    if Quiescent(s) {
      QuiescentCannotRun(s);
      QueueRefinement(receivers, s);
      assert ToMap(s.queue) == map[];
      assert InOrder(ToMap(s.queue)) == [];
    }
  }

  lemma QuiescentCannotRun(s: Config)
    requires Quiescent(s)
    ensures forall t :: !CanRun(s, t)
  {
  }

  lemma IdleThreadRuns(s: Config) returns (t: nat)
    requires LockInv(s) && QueueInv(s) && s.owner == map[] && !Quiescent(s)
    ensures CanRun(s, t)
  {
    if s.pc[0] != SParked(false) {
      t := 0;
    } else {
      t :| 0 < t < |s.pc| && s.pc[t] != RClosed;
    }
    assert KnowsQueue(s.pc[t], s.queue);
  }

  // ------------------------------------------------------------ rounds end

  /** How many actions a thread has before it at most, until its round ends: a receiver then looks again
      whether the socket is open, the sender locks the TCP mutex again or sleeps. */
  function ActionsLeft(p: Pc): nat {
    match p
    case RLock => 22
    case RLogSelect => 21
    case RSelect => 20
    case RCommand => 19
    case RLogCommand => 18
    case RLogCommandDone => 17
    case RServer => 16
    case RReceive => 15
    case RLogReceived(_) => 14
    case RSave(_) => 13
    case RDecide(_) => 12
    case RLockTcp(_) => 11
    case RLogPush(_) => 10
    case RSize(_) => 9
    case RInsert(_, _) => 8
    case RNotify => 7
    case RUnlockTcp => 6
    case RLogFailed => 3
    case RLogRetry => 2
    case RLogEnd => 2
    case RUnlock => 1
    case RBegin => 1
    case SRelock => 14
    case STest => 13
    case SIndex => 12
    case SValue(_) => 11
    case SRemove(_, _) => 10
    case SSize(_) => 9
    case SLogSize(_) => 8
    case SCheck(_) => 7
    case SLogBad(_) => 6
    case SLogSend(_) => 5
    case SSend(_) => 4
    case SLogSkipped => 3
    case SLogEnd => 2
    case SUnlock => 1
    case SBegin => 1
    case _ => 0
  }

  /** Every action inside a round brings its end nearer, whatever I/O does. A receiver stops only when it
      finds the socket closed, and the sender goes to sleep only on an empty queue. */
  lemma RoundsEnd(receivers: nat, s: Config, t: nat, c: Choice)
    requires Reachable(receivers, s) && Enabled(s, t, c)
    ensures var p, p' := s.pc[t], ThreadStep(s, t, c).pc[t];
            && (Acquires(s, t) ==> p' == p || (p.Wants().Needs? && !p.Wants().lock.IsLeaf()))
            && (!Acquires(s, t) && ActionsLeft(p) > 0 ==> ActionsLeft(p') < ActionsLeft(p))
            && (p' == RClosed ==> p == ROpen && c != First)
            && (p'.SParked? ==> p == STest && ToMap(s.queue) == map[])
            && !p'.SCrashed?
  {
    hide Reachable, DataInv, DeliveryInv, OfferInv, WakeInv, QueueInv, LockInv;
    ReachableSatisfiesInv(receivers, s);
    StepKnows(s, t);
    if Acquires(s, t) {
      AfterLockHolds(s.pc[t], s.pc[t].Wants().lock);
    } else {
      ActNeedsOnlyLeaf(s, t, c);
      ControlEndsRound(s, s.pc[t], c);
    }
  }

  lemma StepKnows(s: Config, t: nat)
    requires QueueInv(s) && t < |s.pc|
    ensures KnowsQueue(s.pc[t], s.queue)
  {
  }

  lemma ControlEndsRound(s: Config, p: Pc, c: Choice)
    requires KnowsQueue(p, s.queue) && (p.Wants().Needs? ==> p.Wants().lock.IsLeaf())
    requires p != RClosed
    ensures ActionsLeft(p) > 0 ==> ActionsLeft(Control(s, p, c)) < ActionsLeft(p)
    ensures Control(s, p, c) == RClosed ==> p == ROpen && c != First
    ensures Control(s, p, c).SParked? ==> p == STest && s.queue.Leaf?
    ensures !Control(s, p, c).SCrashed?
  {
    if p.IsSender() { SenderEndsRound(s, p, c); } else { ReceiverEndsRound(s, p, c); }
  }

  lemma SenderEndsRound(s: Config, p: Pc, c: Choice)
    requires p.IsSender() && KnowsQueue(p, s.queue) && (p.Wants().Needs? ==> p.Wants().lock.IsLeaf())
    ensures ActionsLeft(p) > 0 ==> ActionsLeft(Control(s, p, c)) < ActionsLeft(p)
    ensures Control(s, p, c) != RClosed && !Control(s, p, c).SCrashed?
    ensures Control(s, p, c).SParked? ==> p == STest && s.queue.Leaf?
  {
    SizeZero(s.queue);
  }

  lemma ReceiverEndsRound(s: Config, p: Pc, c: Choice)
    requires !p.IsSender() && p != RClosed && (p.Wants().Needs? ==> p.Wants().lock.IsLeaf())
    ensures ActionsLeft(p) > 0 ==> ActionsLeft(Control(s, p, c)) < ActionsLeft(p)
    ensures Control(s, p, c) == RClosed ==> p == ROpen && c != First
    ensures !Control(s, p, c).SParked? && !Control(s, p, c).SCrashed?
  {
  }

  // ------------------------------------------------------------ from the server to the TCP socket

  /** The kept message of an id is the first one received with that id. */
  lemma {:induction false} FirstByIdMeaning(ms: seq<MessageFormat>, k: nat)
    ensures k in FirstById(ms) <==> exists i :: 0 <= i < |ms| && ms[i].messageId == k
    ensures k in FirstById(ms) ==>
              exists i :: 0 <= i < |ms| && ms[i].messageId == k && FirstById(ms)[k] == ms[i]
                          && forall j | 0 <= j < i :: ms[j].messageId != k
    decreases |ms|
  {
    if ms == [] {
    } else {
      var n := |ms| - 1;
      var init := ms[..n];
      FirstByIdMeaning(init, k);
      if k in FirstById(init) {
        var i :| 0 <= i < |init| && init[i].messageId == k && FirstById(init)[k] == init[i]
                 && forall j | 0 <= j < i :: init[j].messageId != k;
        assert ms[i] == init[i];
        assert forall j | 0 <= j < i :: ms[j] == init[j];
      } else {
        assert forall j | 0 <= j < n :: ms[j] == init[j];
        if ms[n].messageId == k {
          assert FirstById(ms)[k] == ms[n];
        }
      }
    }
  }

  /** Every message is what the server makes of a number it has used. */
  lemma ServerMessage(s: Config, m: MessageFormat)
    requires DataInv(s) && m in s.net
    ensures m.messageData in s.used && m == MakeMessageDiv20(m.messageData)
    ensures m == MessageFormat(0, 0, m.messageData % 20, m.messageData)
  {
    var n :| n in s.used && m == MakeMessageDiv20(n);
  }

  /** m is the first of the messages with the id k. */
  ghost predicate IsFirstWithId(ms: seq<MessageFormat>, k: nat, m: MessageFormat) {
    exists i :: 0 <= i < |ms| && m == ms[i] && ms[i].messageId == k && forall j | 0 <= j < i :: ms[j].messageId != k
  }

  lemma FirstInLonger(ms: seq<MessageFormat>, more: seq<MessageFormat>, k: nat, m: MessageFormat)
    requires IsFirstWithId(ms, k, m)
    ensures IsFirstWithId(ms + more, k, m)
  {
    var i :| 0 <= i < |ms| && m == ms[i] && ms[i].messageId == k && forall j | 0 <= j < i :: ms[j].messageId != k;
    assert (ms + more)[i] == ms[i];
    assert forall j | 0 <= j < i :: (ms + more)[j] == ms[j];
  }

  /** No delivery is lost inside the process: whatever thread it went to, a message that the socket has
      delivered has been saved, and in this order, but for the one that a receiver is holding. */
  lemma EveryDeliveryIsSaved(receivers: nat, s: Config)
    requires Reachable(receivers, s)
    ensures s.delivered == s.received + InHand(s) && |InHand(s)| <= 1
    ensures MessageMutex !in s.owner ==> s.received == s.delivered
  {
    ReachableSatisfiesInv(receivers, s);
  }

  /** The socket is offered the popped messages, each of them and in this order; the last one may still
      be in the sender's hands. */
  lemma EveryPopIsOffered(receivers: nat, s: Config)
    requires Reachable(receivers, s)
    ensures |s.pc| > 0 && s.popped == s.offered + ToOffer(s.pc[0]) && |ToOffer(s.pc[0])| <= 1
    ensures TcpMutex !in s.owner ==> s.offered == s.popped
  {
    ReachableSatisfiesInv(receivers, s);
    if TcpMutex !in s.owner {
      assert !s.pc[0].HoldsTcp();
    }
  }

  /** The store holds, for each id, the first message saved with it. */
  lemma StoreKeepsFirst(s: Config, k: nat)
    requires DataInv(s)
    ensures k in ToMap(s.store) <==> exists i :: 0 <= i < |s.received| && s.received[i].messageId == k
    ensures k in ToMap(s.store) ==> IsFirstWithId(s.received, k, ToMap(s.store)[k])
  {
    FirstByIdMeaning(s.received, k);
  }

  /** End to end, whatever the network loses, duplicates or reorders: the store has at most the keys
      0, ..., 19, each with the first message delivered for it, whose id and number agree with the key;
      between receptions it has the id of every message delivered; and every popped message is the one
      made for a used number that is 10 modulo 20. */
  lemma EndToEnd(receivers: nat, s: Config)
    requires Reachable(receivers, s)
    ensures |ToMap(s.store)| <= 20
    ensures forall k | k in ToMap(s.store) ::
              var m := ToMap(s.store)[k];
              k < 20 && k == m.messageData % 20 && m.messageData in s.used && m == MessageFormat(0, 0, k, m.messageData)
    ensures forall k | k in ToMap(s.store) :: IsFirstWithId(s.delivered, k, ToMap(s.store)[k])
    ensures forall m | m in s.received :: m.messageId in ToMap(s.store)
    ensures MessageMutex !in s.owner ==> forall m | m in s.delivered :: m.messageId in ToMap(s.store)
    ensures forall m | m in s.popped ::
              m.messageData in s.used && m.messageData % 20 == 10 && m == MessageFormat(0, 0, 10, m.messageData)
  {
    hide LockInv, QueueInv, WakeInv, DeliveryInv, OfferInv, DataInv, Reachable;
    ReachableSatisfiesInv(receivers, s);
    EveryDeliveryIsSaved(receivers, s);
    forall k | k in ToMap(s.store) ensures IsFirstWithId(s.delivered, k, ToMap(s.store)[k]) {
      StoreKeepsFirst(s, k);
      FirstInLonger(s.received, InHand(s), k, ToMap(s.store)[k]);
    }
    forall k | k in ToMap(s.store)
      ensures var m := ToMap(s.store)[k];
              k < 20 && k == m.messageData % 20 && m.messageData in s.used && m == MessageFormat(0, 0, k, m.messageData)
    {
      StoreKeepsFirst(s, k);
      StoredIsFromServer(s, k);
    }
    forall m | m in s.received ensures m.messageId in ToMap(s.store) {
      var i :| 0 <= i < |s.received| && s.received[i] == m;
      StoreKeepsFirst(s, m.messageId);
    }
    SmallMap(ToMap(s.store), 20);
    forall m | m in s.popped
      ensures m.messageData in s.used && m.messageData % 20 == 10 && m == MessageFormat(0, 0, 10, m.messageData)
    {
      PoppedWasPushed(s, m);
      ServerMessage(s, m);
    }
  }

  lemma StoredIsFromServer(s: Config, k: nat)
    requires DataInv(s) && k in ToMap(s.store) && IsFirstWithId(s.received, k, ToMap(s.store)[k])
    ensures var m := ToMap(s.store)[k];
            k == m.messageData % 20 && m.messageData in s.used && m == MessageFormat(0, 0, k, m.messageData)
  {
    ServerMessage(s, ToMap(s.store)[k]);
  }

  lemma SmallMap<V>(m: map<nat, V>, n: nat)
    requires forall k | k in m :: k < n
    ensures |m| <= n
  {
    assert |m| == |m.Keys|;
    IntervalSize(0, n);
    SubsetSize(m.Keys, Interval(0, n));
  }

  lemma PoppedWasPushed(s: Config, m: MessageFormat)
    requires QueueInv(s) && m in s.popped
    ensures SendViaTcpRequired(m) && m in s.net
  {
    Runs.OutputWasPushed(s.events);
    assert m in Runs.Output(Runs.Run(s.events));
  }
}
