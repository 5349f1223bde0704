/** What every step of the receiver process keeps. */
module ProtocolInvariants {
  import opened Messages
  import opened OrderedMap
  import opened SearchTree
  import opened Protocol
  import Queue
  import Runs = QueueRuns

  // ------------------------------------------------------------ locks

  ghost predicate HoldsOuter(p: Pc, l: Lock) {
    match l
    case MessageMutex => p.HoldsMessage()
    case TcpMutex => p.HoldsTcp()
    case _ => false
  }

  /** An owner is where the lock is held or, for a leaf lock, needed. */
  ghost predicate OwnersHold(pc: seq<Pc>, owner: map<Lock, nat>) {
    forall l | l in owner ::
      owner[l] < |pc| && (HoldsOuter(pc[owner[l]], l) || (l.IsLeaf() && pc[owner[l]].Wants() == Needs(l)))
  }

  /** Whoever is where a mutex is held owns it. */
  ghost predicate HoldersOwn(pc: seq<Pc>, owner: map<Lock, nat>) {
    && (forall t | 0 <= t < |pc| && pc[t].HoldsMessage() :: MessageMutex in owner && owner[MessageMutex] == t)
    && (forall t | 0 <= t < |pc| && pc[t].HoldsTcp() :: TcpMutex in owner && owner[TcpMutex] == t)
  }

  /** Ownership agrees with program counters, and thread 0 alone is the sender. */
  ghost predicate LockInv(s: Config) {
    && |s.pc| > 0
    && Roles(s.pc)
    && OwnersHold(s.pc, s.owner) && HoldersOwn(s.pc, s.owner)
  }

  /** Locks are taken in one order: message, TCP, leaf. */
  lemma LockOrder(p: Pc, held: Lock)
    requires p.Wants().Needs? && HoldsOuter(p, held)
    ensures held.Rank() < p.Wants().lock.Rank()
  {
  }

  lemma AfterLockHolds(p: Pc, l: Lock)
    requires p.Wants().Needs?
    ensures HoldsOuter(AfterLock(p), l) <==> HoldsOuter(p, l) || (l == p.Wants().lock && !l.IsLeaf())
    ensures AfterLock(p).IsSender() == p.IsSender()
    ensures p.Wants().lock.IsLeaf() ==> AfterLock(p) == p
  {
  }

  lemma ReleasedWasHeld(s: Config, p: Pc, l: Lock)
    ensures l in Released(s, p) ==> HoldsOuter(p, l) || p.Wants() == Needs(l)
    ensures p.Wants() == Needs(l) ==> l in Released(s, p)
  {
  }

  lemma ControlKeepsRole(s: Config, p: Pc, c: Choice)
    ensures Control(s, p, c).IsSender() == p.IsSender()
  {
  }

  lemma ControlHoldsMessage(s: Config, p: Pc, c: Choice)
    requires p.Wants().Needs? ==> p.Wants().lock.IsLeaf()
    ensures Control(s, p, c).HoldsMessage() <==> p.HoldsMessage() && MessageMutex !in Released(s, p)
  {
    if p.IsSender() {
      SenderHoldsNoMessage(s, p, c);
    } else {
      ReceiverHoldsMessage(s, p, c);
    }
  }

  lemma SenderHoldsNoMessage(s: Config, p: Pc, c: Choice)
    requires p.IsSender()
    ensures !Control(s, p, c).HoldsMessage() && !p.HoldsMessage()
  {
  }

  lemma ReceiverHoldsMessage(s: Config, p: Pc, c: Choice)
    requires !p.IsSender() && (p.Wants().Needs? ==> p.Wants().lock.IsLeaf())
    ensures Control(s, p, c).HoldsMessage() <==> p.HoldsMessage() && MessageMutex !in Released(s, p)
  {
  }

  lemma ControlHoldsTcp(s: Config, p: Pc, c: Choice)
    requires p.Wants().Needs? ==> p.Wants().lock.IsLeaf()
    ensures Control(s, p, c).HoldsTcp() <==> p.HoldsTcp() && TcpMutex !in Released(s, p)
  {
    if p.IsSender() {
      SenderHoldsTcp(s, p, c);
    } else {
      ReceiverHoldsTcp(s, p, c);
    }
  }

  lemma SenderHoldsTcp(s: Config, p: Pc, c: Choice)
    requires p.IsSender() && (p.Wants().Needs? ==> p.Wants().lock.IsLeaf())
    ensures Control(s, p, c).HoldsTcp() <==> p.HoldsTcp() && TcpMutex !in Released(s, p)
  {
  }

  lemma ReceiverHoldsTcp(s: Config, p: Pc, c: Choice)
    requires !p.IsSender() && (p.Wants().Needs? ==> p.Wants().lock.IsLeaf())
    ensures Control(s, p, c).HoldsTcp() <==> p.HoldsTcp() && TcpMutex !in Released(s, p)
  {
  }

  lemma NotifyHolds(pc: seq<Pc>, t: nat, l: Lock)
    requires t < |pc|
    ensures |Notified(pc)| == |pc|
    ensures HoldsOuter(Notified(pc)[t], l) <==> HoldsOuter(pc[t], l)
    ensures Notified(pc)[t].Wants() == pc[t].Wants() && Notified(pc)[t].IsSender() == pc[t].IsSender()
    ensures t != 0 ==> Notified(pc)[t] == pc[t]
    ensures !pc[t].SParked? ==> Notified(pc)[t] == pc[t]
  {
  }

  /** The step is a lock acquisition rather than an action. */
  ghost predicate Acquires(s: Config, t: nat)
    requires t < |s.pc|
  {
    s.pc[t].Wants().Needs? && s.pc[t].Wants().lock !in s.owner
  }

  lemma ActNeedsOnlyLeaf(s: Config, t: nat, c: Choice)
    requires Enabled(s, t, c) && !Acquires(s, t)
    ensures ThreadStep(s, t, c) == Act(s, t, c)
    ensures s.pc[t].Wants().Needs? ==> s.pc[t].Wants().lock.IsLeaf() && s.pc[t].Wants().lock in s.owner && s.owner[s.pc[t].Wants().lock] == t
  {
  }

  lemma AcquireKeepsLocks(s: Config, t: nat, c: Choice)
    requires LockInv(s) && Enabled(s, t, c) && Acquires(s, t)
    ensures LockInv(ThreadStep(s, t, c))
  {
    var p := s.pc[t];
    forall l ensures HoldsOuter(AfterLock(p), l) <==> HoldsOuter(p, l) || (l == p.Wants().lock && !l.IsLeaf()) {
      AfterLockHolds(p, l);
    }
    AfterLockHolds(p, p.Wants().lock);
    assert HoldsOuter(AfterLock(p), MessageMutex) == AfterLock(p).HoldsMessage();
    assert HoldsOuter(AfterLock(p), TcpMutex) == AfterLock(p).HoldsTcp();
  }

  lemma ActKeepsOwners(s: Config, t: nat, c: Choice)
    requires LockInv(s) && Enabled(s, t, c) && !Acquires(s, t)
    ensures OwnersHold(Act(s, t, c).pc, Act(s, t, c).owner)
  {
    hide Control, Released, Pc.HoldsMessage, Pc.HoldsTcp, Pc.Wants;
    ActNeedsOnlyLeaf(s, t, c);
    var s', p := Act(s, t, c), s.pc[t];
    ControlHoldsMessage(s, p, c);
    ControlHoldsTcp(s, p, c);
    forall l | l in s'.owner
      ensures s'.owner[l] < |s'.pc| && (HoldsOuter(s'.pc[s'.owner[l]], l) || (l.IsLeaf() && s'.pc[s'.owner[l]].Wants() == Needs(l)))
    {
      assert l in s.owner && l !in Released(s, p);
      ReleasedWasHeld(s, p, l);
      NotifyHolds(s.pc, s.owner[l], l);
    }
  }

  lemma ActKeepsHolders(s: Config, t: nat, c: Choice)
    requires LockInv(s) && Enabled(s, t, c) && !Acquires(s, t)
    ensures HoldersOwn(Act(s, t, c).pc, Act(s, t, c).owner)
  {
    hide Control, Released, Pc.HoldsMessage, Pc.HoldsTcp, Pc.Wants;
    ActNeedsOnlyLeaf(s, t, c);
    var s', p := Act(s, t, c), s.pc[t];
    ControlHoldsMessage(s, p, c);
    ControlHoldsTcp(s, p, c);
    forall u | 0 <= u < |s'.pc|
      ensures s'.pc[u].HoldsMessage() ==> MessageMutex in s'.owner && s'.owner[MessageMutex] == u
      ensures s'.pc[u].HoldsTcp() ==> TcpMutex in s'.owner && s'.owner[TcpMutex] == u
    {
      NotifyHolds(s.pc, u, MessageMutex);
      NotifyHolds(s.pc, u, TcpMutex);
      ReleasedWasHeld(s, p, MessageMutex);
      ReleasedWasHeld(s, p, TcpMutex);
    }
  }

  ghost predicate Roles(pc: seq<Pc>) {
    forall t | 0 <= t < |pc| :: pc[t].IsSender() <==> t == 0
  }

  lemma UpdateKeepsRoles(pc: seq<Pc>, t: nat, p: Pc)
    requires Roles(pc) && t < |pc| && p.IsSender() == pc[t].IsSender()
    ensures Roles(pc[t := p]) && Roles(Notified(pc)[t := p])
  {
  }

  lemma ActKeepsRoles(s: Config, t: nat, c: Choice)
    requires Roles(s.pc) && t < |s.pc|
    ensures |Act(s, t, c).pc| == |s.pc| && Roles(Act(s, t, c).pc)
  {
    ControlKeepsRole(s, s.pc[t], c);
    UpdateKeepsRoles(s.pc, t, Control(s, s.pc[t], c));
  }

  lemma ActKeepsLocks(s: Config, t: nat, c: Choice)
    requires LockInv(s) && Enabled(s, t, c) && !Acquires(s, t)
    ensures LockInv(ThreadStep(s, t, c))
  {
    ActNeedsOnlyLeaf(s, t, c);
    ActKeepsRoles(s, t, c);
    ActKeepsOwners(s, t, c);
    ActKeepsHolders(s, t, c);
  }

  lemma StepKeepsLocks(s: Config, t: nat, c: Choice)
    requires LockInv(s) && Enabled(s, t, c)
    ensures LockInv(ThreadStep(s, t, c))
  {
    if Acquires(s, t) { AcquireKeepsLocks(s, t, c); } else { ActKeepsLocks(s, t, c); }
  }

  /** Two threads are never both inside the TCP critical section. */
  lemma TcpExclusion(s: Config, t: nat, u: nat)
    requires LockInv(s) && t < |s.pc| && u < |s.pc|
    requires s.pc[t].HoldsTcp() && s.pc[u].HoldsTcp()
    ensures t == u && TcpMutex in s.owner && s.owner[TcpMutex] == t
  {
  }

  // ------------------------------------------------------------ messages

  /** The message a program counter carries. */
  ghost function Carried(p: Pc): set<MessageFormat> {
    match p
    case RLogReceived(m) => {m}
    case RSave(m) => {m}
    case RDecide(m) => {m}
    case RLockTcp(m) => {m}
    case RLogPush(m) => {m}
    case RSize(m) => {m}
    case RInsert(m, _) => {m}
    case _ => {}
  }

  /** The message with the number n, for some n the server has used. */
  ghost predicate FromServer(used: set<uint64>, m: MessageFormat) {
    exists n :: n in used && m == MakeMessageDiv20(n)
  }

  /** The map that keeps, for each id, the first message received with that id. */
  ghost function FirstById(ms: seq<MessageFormat>): map<nat, MessageFormat> {
    if ms == [] then map[]
    else InsertIfAbsent(FirstById(ms[..|ms| - 1]), ms[|ms| - 1].messageId, ms[|ms| - 1])
  }

  ghost predicate DataInv(s: Config) {
    && (forall m | m in s.net :: FromServer(s.used, m))
    && (forall t | 0 <= t < |s.pc| :: Carried(s.pc[t]) <= s.net)
    && (forall m | m in s.received :: m in s.net)
    && Sorted(s.store) && ToMap(s.store) == FirstById(s.received)
  }

  lemma ControlCarries(s: Config, p: Pc, c: Choice)
    ensures Carried(Control(s, p, c)) <= Carried(p) + (if p.RReceive? && c.Deliver? then {c.m} else {})
  {
  }

  lemma AfterLockCarries(p: Pc)
    ensures Carried(AfterLock(p)) <= Carried(p)
  {
  }

  lemma StepCarries(s: Config, t: nat, c: Choice)
    requires DataInv(s) && Enabled(s, t, c)
    ensures forall u | 0 <= u < |ThreadStep(s, t, c).pc| :: Carried(ThreadStep(s, t, c).pc[u]) <= s.net
  {
    ControlCarries(s, s.pc[t], c);
    AfterLockCarries(s.pc[t]);
  }

  lemma SaveKeepsData(s: Config, m: MessageFormat)
    requires Sorted(s.store) && ToMap(s.store) == FirstById(s.received)
    ensures Sorted(Insert(s.store, m.messageId, m, ()))
    ensures ToMap(Insert(s.store, m.messageId, m, ())) == FirstById(s.received + [m])
  {
    InsertMeaning(s.store, m.messageId, m, ());
    assert (s.received + [m])[..|s.received|] == s.received;
  }

  lemma StepKeepsData(s: Config, t: nat, c: Choice)
    requires DataInv(s) && Enabled(s, t, c)
    ensures DataInv(ThreadStep(s, t, c))
  {
    StepCarries(s, t, c);
    if s.pc[t].RSave? {
      SaveKeepsData(s, s.pc[t].m);
    }
  }

  lemma ServerKeepsData(s: Config)
    requires DataInv(s)
    ensures DataInv(ServerSends(s))
  {
  }

  // ------------------------------------------------------------ every delivery is saved

  /** The message that a receiver has got from the socket but not saved yet. */
  ghost function InHandAt(p: Pc): seq<MessageFormat> {
    match p
    case RLogReceived(m) => [m]
    case RSave(m) => [m]
    case _ => []
  }

  ghost function InHand(s: Config): seq<MessageFormat> {
    if MessageMutex in s.owner && s.owner[MessageMutex] < |s.pc| then InHandAt(s.pc[s.owner[MessageMutex]]) else []
  }

  /** What the socket has delivered, to whichever receiver, has been saved in this order, but for the one
      message in the hands of the owner of the message mutex. */
  ghost predicate DeliveryInv(s: Config) {
    s.delivered == s.received + InHand(s)
  }

  lemma AcquireKeepsDelivery(s: Config, t: nat, c: Choice)
    requires LockInv(s) && DeliveryInv(s) && Enabled(s, t, c) && Acquires(s, t)
    ensures DeliveryInv(ThreadStep(s, t, c))
  {
    var s' := ThreadStep(s, t, c);
    if s.pc[t].Wants() == Needs(MessageMutex) {
      assert InHand(s') == InHand(s) == [];
    } else {
      assert InHandAt(AfterLock(s.pc[t])) == InHandAt(s.pc[t]);
      assert InHand(s') == InHand(s);
    }
  }

  /** A thread without the message mutex neither gets nor saves messages. */
  lemma OtherActKeepsDelivery(s: Config, t: nat, c: Choice)
    requires LockInv(s) && DeliveryInv(s) && Enabled(s, t, c) && !Acquires(s, t)
    requires !s.pc[t].HoldsMessage()
    ensures DeliveryInv(ThreadStep(s, t, c))
  {
    ActNeedsOnlyLeaf(s, t, c);
    ReleasedWasHeld(s, s.pc[t], MessageMutex);
    if MessageMutex in s.owner {
      NotifyHolds(s.pc, s.owner[MessageMutex], MessageMutex);
    }
    assert InHand(Act(s, t, c)) == InHand(s);
  }

  lemma OwnerHasInHand(s: Config, t: nat, c: Choice)
    requires LockInv(s) && t < |s.pc| && s.pc[t].HoldsMessage()
    ensures InHand(s) == InHandAt(s.pc[t])
    ensures MessageMutex !in Released(s, s.pc[t]) ==> InHand(Act(s, t, c)) == InHandAt(Control(s, s.pc[t], c))
    ensures MessageMutex in Released(s, s.pc[t]) ==> InHand(Act(s, t, c)) == []
  {
  }

  lemma OwnerActKeepsDelivery(s: Config, t: nat, c: Choice)
    requires LockInv(s) && DeliveryInv(s) && Enabled(s, t, c) && !Acquires(s, t)
    requires s.pc[t].HoldsMessage()
    ensures DeliveryInv(ThreadStep(s, t, c))
  {
    hide Control, Released, InHand, InHandAt;
    ActNeedsOnlyLeaf(s, t, c);
    OwnerHasInHand(s, t, c);
    ControlHands(s, s.pc[t], c);
  }

  lemma ControlHands(s: Config, p: Pc, c: Choice)
    requires p.Wants().Needs? ==> p.Wants().lock.IsLeaf()
    ensures p.RReceive? ==> InHandAt(p) == [] && InHandAt(Control(s, p, c)) == if c.Deliver? then [c.m] else []
    ensures p.RSave? ==> InHandAt(p) == [p.m] && InHandAt(Control(s, p, c)) == []
    ensures !p.RReceive? && !p.RSave? ==> InHandAt(Control(s, p, c)) == InHandAt(p)
    ensures MessageMutex in Released(s, p) ==> InHandAt(p) == [] && !p.RReceive?
    ensures p.RReceive? || p.RSave? ==> MessageMutex !in Released(s, p)
  {
  }

  lemma StepKeepsDelivery(s: Config, t: nat, c: Choice)
    requires LockInv(s) && DeliveryInv(s) && Enabled(s, t, c)
    ensures DeliveryInv(ThreadStep(s, t, c))
  {
    if Acquires(s, t) {
      AcquireKeepsDelivery(s, t, c);
    } else if s.pc[t].HoldsMessage() {
      OwnerActKeepsDelivery(s, t, c);
    } else {
      OtherActKeepsDelivery(s, t, c);
    }
  }

  // ------------------------------------------------------------ every popped message is offered to the socket

  /** The message that the sender has popped but not offered to the TCP socket yet. */
  ghost function ToOffer(p: Pc): seq<MessageFormat> {
    match p
    case SSize(m) => [m]
    case SLogSize(m) => [m]
    case SCheck(m) => [m]
    case SLogBad(m) => [m]
    case SLogSend(m) => [m]
    case SSend(m) => [m]
    case _ => []
  }

  ghost predicate OfferInv(s: Config) {
    |s.pc| > 0 && s.popped == s.offered + ToOffer(s.pc[0])
  }

  lemma StepKeepsOffer(s: Config, t: nat, c: Choice)
    requires LockInv(s) && OfferInv(s) && Enabled(s, t, c)
    ensures OfferInv(ThreadStep(s, t, c))
  {
    if Acquires(s, t) {
      assert t == 0 ==> ToOffer(AfterLock(s.pc[0])) == ToOffer(s.pc[0]);
    } else {
      ActNeedsOnlyLeaf(s, t, c);
      if t == 0 { SenderKeepsOffer(s, c); } else { ReceiverKeepsOffer(s, t, c); }
    }
  }

  lemma ControlOffers(s: Config, p: Pc, c: Choice)
    ensures p.SRemove? ==> ToOffer(p) == [] && (Control(s, p, c).SSize? && ToOffer(Control(s, p, c)) == [p.m])
    ensures p.SSend? ==> ToOffer(p) == [p.m] && ToOffer(Control(s, p, c)) == []
    ensures !p.SRemove? && !p.SSend? ==> ToOffer(Control(s, p, c)) == ToOffer(p)
  {
  }

  lemma SenderKeepsOffer(s: Config, c: Choice)
    requires LockInv(s) && OfferInv(s)
    ensures OfferInv(Act(s, 0, c))
  {
    hide Control, ToOffer;
    ControlOffers(s, s.pc[0], c);
  }

  lemma ReceiverKeepsOffer(s: Config, t: nat, c: Choice)
    requires LockInv(s) && OfferInv(s) && 0 < t < |s.pc|
    ensures OfferInv(Act(s, t, c))
  {
  }

  // ------------------------------------------------------------ the queue

  /** What a program counter inside the TCP critical section knows about the queue. */
  ghost predicate KnowsQueue(p: Pc, queue: Shape) {
    match p
    case RLockTcp(m) => SendViaTcpRequired(m)
    case RLogPush(m) => SendViaTcpRequired(m)
    case RSize(m) => SendViaTcpRequired(m)
    case RInsert(m, at) => SendViaTcpRequired(m) && at == Size(queue)
    case SIndex => queue.Branch?
    case SValue(i) => queue.Branch? && i == LeastKey(queue)
    case SRemove(i, m) => queue.Branch? && i == LeastKey(queue) && m == LeastValue(queue)
    case SSize(m) => SendViaTcpRequired(m)
    case SLogSize(m) => SendViaTcpRequired(m)
    case SCheck(m) => SendViaTcpRequired(m)
    case SLogBad(_) => false
    case SCrashed => false
    case _ => true
  }

  /** The queue in memory is the queue of the run of pushes and pops so far. */
  ghost predicate QueueInv(s: Config) {
    && Sorted(s.queue)
    && ToMap(s.queue) == Runs.Run(s.events).q
    && s.popped == Runs.Run(s.events).popped
    && (forall m | m in Runs.Run(s.events).pushed :: SendViaTcpRequired(m) && m in s.net)
    && (forall t | 0 <= t < |s.pc| :: KnowsQueue(s.pc[t], s.queue))
  }

  lemma SizeZero(t: Shape)
    ensures Size(t) == 0 <==> t.Leaf?
  {
  }

  /** The least entry of the queue was pushed. */
  lemma LeastWasPushed(s: Config)
    requires QueueInv(s) && s.queue.Branch?
    ensures SendViaTcpRequired(LeastValue(s.queue)) && LeastValue(s.queue) in s.net
  {
    LeastIsMinimum(s.queue);
    Runs.OutputWasPushed(s.events);
    Runs.InOrderHas(ToMap(s.queue), LeastKey(s.queue));
    var r := Runs.Run(s.events);
    assert LeastValue(s.queue) in InOrder(r.q);
    assert LeastValue(s.queue) in Runs.Output(r);
  }

  /** Outside the TCP critical section nothing is known about the queue. */
  lemma KnowledgeIsProtected(p: Pc, q: Shape, q': Shape)
    requires KnowsQueue(p, q) && !p.HoldsTcp()
    ensures KnowsQueue(p, q')
  {
  }

  lemma NotifyKnows(pc: seq<Pc>, t: nat, q: Shape)
    requires t < |pc| && KnowsQueue(pc[t], q)
    ensures KnowsQueue(Notified(pc)[t], q)
  {
  }

  /** An action that leaves the queue alone moves to a program counter whose knowledge holds. */
  lemma ControlKnows(s: Config, p: Pc, c: Choice)
    requires KnowsQueue(p, s.queue) && !p.RInsert? && !p.SRemove?
    requires p.RDecide? ==> (SendViaTcpRequired(p.m) || Control(s, p, c).RLogEnd?)
    ensures KnowsQueue(Control(s, p, c), s.queue)
  {
    SizeZero(s.queue);
  }

  lemma AfterLockKnows(p: Pc, q: Shape)
    requires KnowsQueue(p, q)
    ensures KnowsQueue(AfterLock(p), q)
  {
  }

  lemma AcquireKeepsQueue(s: Config, t: nat, c: Choice)
    requires QueueInv(s) && Enabled(s, t, c) && Acquires(s, t)
    ensures QueueInv(ThreadStep(s, t, c))
  {
    AfterLockKnows(s.pc[t], s.queue);
  }

  lemma QuietActKeepsQueue(s: Config, t: nat, c: Choice)
    requires QueueInv(s) && Enabled(s, t, c) && !Acquires(s, t)
    requires !s.pc[t].RInsert? && !s.pc[t].SRemove?
    ensures QueueInv(ThreadStep(s, t, c))
  {
    ActNeedsOnlyLeaf(s, t, c);
    ControlKnows(s, s.pc[t], c);
    var s' := Act(s, t, c);
    forall u | 0 <= u < |s'.pc| ensures KnowsQueue(s'.pc[u], s'.queue) {
      NotifyKnows(s.pc, u, s.queue);
    }
  }

  /** When the owner of the TCP mutex changes the queue, no other thread's knowledge is touched. */
  lemma OthersKeepKnowledge(s: Config, t: nat, u: nat, q': Shape)
    requires LockInv(s) && t < |s.pc| && u < |s.pc| && u != t
    requires s.pc[t].HoldsTcp() && KnowsQueue(s.pc[u], s.queue)
    ensures KnowsQueue(s.pc[u], q')
  {
    if s.pc[u].HoldsTcp() { TcpExclusion(s, t, u); }
    KnowledgeIsProtected(s.pc[u], s.queue, q');
  }

  /** Inserting at the current size is a push of the queue. */
  lemma InsertIsPush(s: Config, m: MessageFormat)
    requires QueueInv(s)
    ensures var q, r := Insert(s.queue, Size(s.queue), m, ()), Runs.Run(s.events + [Runs.Push(m)]);
            && Sorted(q) && ToMap(q) == r.q
            && r.popped == s.popped && r.pushed == Runs.Run(s.events).pushed + [m]
  {
    SizeIsKeyCount(s.queue);
    InsertMeaning(s.queue, Size(s.queue), m, ());
    Runs.RunSnoc(Runs.Init(), s.events, Runs.Push(m));
  }

  lemma InsertKeepsQueue(s: Config, t: nat, c: Choice)
    requires LockInv(s) && DataInv(s) && QueueInv(s) && Enabled(s, t, c) && !Acquires(s, t)
    requires s.pc[t].RInsert?
    ensures QueueInv(ThreadStep(s, t, c))
  {
    ActNeedsOnlyLeaf(s, t, c);
    var s', p := Act(s, t, c), s.pc[t];
    InsertIsPush(s, p.m);
    assert p.m in Carried(p);
    forall u | 0 <= u < |s'.pc| ensures KnowsQueue(s'.pc[u], s'.queue) {
      if u != t { OthersKeepKnowledge(s, t, u, s'.queue); }
    }
  }

  lemma RemoveKeepsQueue(s: Config, t: nat, c: Choice)
    requires LockInv(s) && QueueInv(s) && Enabled(s, t, c) && !Acquires(s, t)
    requires s.pc[t].SRemove?
    ensures QueueInv(ThreadStep(s, t, c))
  {
    ActNeedsOnlyLeaf(s, t, c);
    var s', p := Act(s, t, c), s.pc[t];
    LeastWasPushed(s);
    RemoveIsPop(s);
    forall u | 0 <= u < |s'.pc| ensures KnowsQueue(s'.pc[u], s'.queue) {
      if u != t { OthersKeepKnowledge(s, t, u, s'.queue); }
    }
  }

  /** Deleting the least key from the tree is a pop of the queue. */
  lemma RemoveIsPop(s: Config)
    requires QueueInv(s) && s.queue.Branch?
    ensures var d, r := Delete(s.queue, LeastKey(s.queue)), Runs.Run(s.events + [Runs.Pop]);
            && Sorted(d) && ToMap(d) == r.q
            && r.popped == s.popped + [LeastValue(s.queue)]
            && r.pushed == Runs.Run(s.events).pushed
  {
    LeastIsMinimum(s.queue);
    DeleteLeast(s.queue);
    DeleteKeys(s.queue, LeastKey(s.queue));
    Runs.RunSnoc(Runs.Init(), s.events, Runs.Pop);
    assert LeastKey(s.queue) in ToMap(s.queue).Keys;
  }

  lemma StepKeepsQueue(s: Config, t: nat, c: Choice)
    requires LockInv(s) && DataInv(s) && QueueInv(s) && Enabled(s, t, c)
    ensures QueueInv(ThreadStep(s, t, c))
  {
    if Acquires(s, t) {
      AcquireKeepsQueue(s, t, c);
    } else if s.pc[t].RInsert? {
      InsertKeepsQueue(s, t, c);
    } else if s.pc[t].SRemove? {
      RemoveKeepsQueue(s, t, c);
    } else {
      QuietActKeepsQueue(s, t, c);
    }
  }

  // ------------------------------------------------------------ waking the sender

  /** A parked sender that nobody has notified is owed a notification as soon as the queue is not empty. */
  ghost predicate WakeInv(s: Config) {
    |s.pc| > 0 && s.pc[0] == SParked(false) && s.queue.Branch? ==>
      TcpMutex in s.owner && s.owner[TcpMutex] < |s.pc| && s.pc[s.owner[TcpMutex]].RNotify?
  }

  lemma StepKeepsWake(s: Config, t: nat, c: Choice)
    requires LockInv(s) && WakeInv(s) && Enabled(s, t, c)
    ensures WakeInv(ThreadStep(s, t, c))
  {
    if Acquires(s, t) {
      AcquireKeepsWake(s, t, c);
    } else if t == 0 {
      SenderKeepsWake(s, c);
    } else {
      ReceiverKeepsWake(s, t, c);
    }
  }

  /** The sender parks only after it has found the queue empty. */
  lemma ParksOnEmpty(s: Config, p: Pc, c: Choice)
    ensures Control(s, p, c) == SParked(false) && p != SParked(false) ==> p.STest? && s.queue.Leaf?
  {
    SizeZero(s.queue);
  }

  lemma SenderKeepsWake(s: Config, c: Choice)
    requires LockInv(s) && Enabled(s, 0, c) && !Acquires(s, 0)
    ensures WakeInv(ThreadStep(s, 0, c))
  {
    ActNeedsOnlyLeaf(s, 0, c);
    ParksOnEmpty(s, s.pc[0], c);
  }

  /** A receiver that fills the queue goes on to notify, keeping the TCP mutex. */
  lemma ReceiverKeepsWake(s: Config, t: nat, c: Choice)
    requires LockInv(s) && WakeInv(s) && Enabled(s, t, c) && !Acquires(s, t) && t != 0
    ensures WakeInv(ThreadStep(s, t, c))
  {
    ActNeedsOnlyLeaf(s, t, c);
  }

  lemma AcquireKeepsWake(s: Config, t: nat, c: Choice)
    requires LockInv(s) && WakeInv(s) && Enabled(s, t, c) && Acquires(s, t)
    ensures WakeInv(ThreadStep(s, t, c))
  {
  }

  // ------------------------------------------------------------ every reachable state

  ghost predicate Inv(s: Config) {
    LockInv(s) && DataInv(s) && DeliveryInv(s) && OfferInv(s) && QueueInv(s) && WakeInv(s)
  }

  lemma StartSatisfiesInv(receivers: nat)
    ensures Inv(Start(receivers))
  {
  }

  lemma NextKeepsInv(s: Config, a: Action, s': Config)
    requires Inv(s) && Next(s, a, s')
    ensures Inv(s')
  {
    match a
    case Thread(t, c) =>
      StepKeepsLocks(s, t, c);
      StepKeepsData(s, t, c);
      StepKeepsDelivery(s, t, c);
      StepKeepsOffer(s, t, c);
      StepKeepsQueue(s, t, c);
      StepKeepsWake(s, t, c);
    case Server =>
      ServerKeepsData(s);
  }

  lemma {:induction false} StepsSatisfyInv(receivers: nat, s: Config, n: nat)
    requires ReachableIn(receivers, s, n)
    ensures Inv(s)
    decreases n
  {
    hide Inv, Next;
    if n == 0 {
      StartSatisfiesInv(receivers);
    } else {
      var before, a :| ReachableIn(receivers, before, n - 1) && Next(before, a, s);
      StepsSatisfyInv(receivers, before, n - 1);
      NextKeepsInv(before, a, s);
    }
  }

  lemma ReachableSatisfiesInv(receivers: nat, s: Config)
    requires Reachable(receivers, s)
    ensures Inv(s)
  {
    var n :| ReachableIn(receivers, s, n);
    StepsSatisfyInv(receivers, s, n);
  }
}
