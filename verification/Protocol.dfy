/** The receiver process as a transition system: thread 0 is the TCP sender, every other thread a
    UDP receiver. A thread is a program counter with the local values that are still needed.
    The containers are search trees as they are in memory, so a removal has all the effects
    the tree algorithm has. Datagrams may be lost, duplicated and reordered. */
module Protocol {
  import opened Messages
  import opened SearchTree
  import opened QueueRuns
  import Servers

  /** A container's tree; which objects hold the entries does not matter here. */
  type Shape = Tree<(), MessageFormat>

  datatype Lock = MessageMutex | TcpMutex | StoreMutex | QueueMutex | LogMutex {
    /** Locks that are only held around a single action. */
    predicate IsLeaf() {
      StoreMutex? || QueueMutex? || LogMutex?
    }

    function Rank(): nat {
      match this
      case MessageMutex => 0
      case TcpMutex => 1
      case _ => 2
    }
  }

  datatype Pc =
    // receiver, before and between rounds
    | RBegin | ROpen | RLock | RClosed
    // receiver, holding the message mutex
    | RLogSelect | RSelect | RLogRetry | RCommand | RLogCommand | RLogCommandDone | RServer | RReceive | RLogFailed
    | RLogReceived(m: MessageFormat) | RSave(m: MessageFormat) | RDecide(m: MessageFormat) | RLockTcp(m: MessageFormat)
    // receiver, also holding the TCP mutex
    | RLogPush(m: MessageFormat) | RSize(m: MessageFormat) | RInsert(m: MessageFormat, at: nat) | RNotify | RUnlockTcp
    // receiver, end of the round
    | RLogEnd | RUnlock
    // sender, without the TCP mutex
    | SBegin | SLock | SParked(notified: bool) | SRelock
    // sender, holding the TCP mutex
    | STest | SIndex | SValue(index: nat) | SRemove(index: nat, m: MessageFormat)
    | SSize(m: MessageFormat) | SLogSize(m: MessageFormat) | SCheck(m: MessageFormat) | SLogBad(m: MessageFormat)
    | SLogSend(m: MessageFormat) | SSend(m: MessageFormat) | SLogSkipped | SLogEnd | SUnlock
    // sender, after following a null pointer with the mutex held
    | SCrashed
  {
    predicate HoldsMessage() {
      || RLogSelect? || RSelect? || RLogRetry? || RCommand? || RLogCommand? || RLogCommandDone? || RServer? || RReceive? || RLogFailed?
      || RLogReceived? || RSave? || RDecide? || RLockTcp? || RLogPush? || RSize? || RInsert? || RNotify? || RUnlockTcp?
      || RLogEnd? || RUnlock?
    }

    predicate HoldsTcp() {
      || RLogPush? || RSize? || RInsert? || RNotify? || RUnlockTcp?
      || STest? || SIndex? || SValue? || SRemove? || SSize? || SLogSize? || SCheck? || SLogBad?
      || SLogSend? || SSend? || SLogSkipped? || SLogEnd? || SUnlock? || SCrashed?
    }

    predicate IsSender() {
      || SBegin? || SLock? || SParked? || SRelock? || STest? || SIndex? || SValue? || SRemove? || SSize? || SLogSize? || SCheck?
      || SLogBad? || SLogSend? || SSend? || SLogSkipped? || SLogEnd? || SUnlock? || SCrashed?
    }

    /** The lock that the next action of the thread needs. */
    function Wants(): Need {
      match this
      case RLock => Needs(MessageMutex)
      case RLockTcp(_) => Needs(TcpMutex)
      case SLock => Needs(TcpMutex)
      case SRelock => Needs(TcpMutex)
      case RSave(_) => Needs(StoreMutex)
      case RSize(_) => Needs(QueueMutex)
      case RInsert(_, _) => Needs(QueueMutex)
      case STest => Needs(QueueMutex)
      case SIndex => Needs(QueueMutex)
      case SValue(_) => Needs(QueueMutex)
      case SRemove(_, _) => Needs(QueueMutex)
      case SSize(_) => Needs(QueueMutex)
      case RBegin => Needs(LogMutex)
      case RLogSelect => Needs(LogMutex)
      case RLogRetry => Needs(LogMutex)
      case RLogCommand => Needs(LogMutex)
      case RLogCommandDone => Needs(LogMutex)
      case RLogFailed => Needs(LogMutex)
      case RLogReceived(_) => Needs(LogMutex)
      case RLogPush(_) => Needs(LogMutex)
      case RLogEnd => Needs(LogMutex)
      case SBegin => Needs(LogMutex)
      case SLogSize(_) => Needs(LogMutex)
      case SLogBad(_) => Needs(LogMutex)
      case SLogSend(_) => Needs(LogMutex)
      case SLogSkipped => Needs(LogMutex)
      case SLogEnd => Needs(LogMutex)
      case _ => NoLock
    }
  }

  datatype Need = NoLock | Needs(lock: Lock)

  /** What the environment decides in a step: which way an I/O call goes, or which datagram arrives. */
  datatype Choice = First | Second | Deliver(m: MessageFormat)

  /** pc, owner, store and queue are the memory of the receiver process; count is the server's counter;
      net holds every datagram ever sent. The rest is history: delivered by the socket to any receiver,
      received and saved, pushed and popped (events), popped, offered to the TCP socket. */
  datatype Config = Config(
    pc: seq<Pc>, owner: map<Lock, nat>, store: Shape, queue: Shape,
    count: uint64, used: set<uint64>, net: set<MessageFormat>,
    delivered: seq<MessageFormat>, received: seq<MessageFormat>,
    events: seq<Event<MessageFormat>>, popped: seq<MessageFormat>, offered: seq<MessageFormat>)

  function Start(receivers: nat): Config {
    Config([SBegin] + seq(receivers, _ => RBegin), map[], Leaf, Leaf, 0, {}, {}, [], [], [], [], [])
  }

  /** Where a thread is once it has the mutex it was waiting for. */
  function AfterLock(p: Pc): Pc {
    match p
    case RLock => RLogSelect
    case RLockTcp(m) => RLogPush(m)
    case SLock => STest
    case SRelock => STest
    case _ => p
  }

  /** Where a thread goes with its next action. */
  function Control(s: Config, p: Pc, c: Choice): Pc {
    match p
    case RBegin => ROpen
    case ROpen => if c == First then RLock else RClosed
    case RLogSelect => RSelect
    case RSelect => if c == First then RLogRetry else RCommand
    case RLogRetry => RUnlock
    case RCommand => if c == First then RLogCommand else RServer
    case RLogCommand => RLogCommandDone
    case RLogCommandDone => RServer
    case RServer => if c == First then RLogRetry else RReceive
    case RReceive => (match c case First => RLogEnd case Second => RLogFailed case Deliver(m) => RLogReceived(m))
    case RLogFailed => RLogEnd
    case RLogReceived(m) => RSave(m)
    case RSave(m) => RDecide(m)
    case RDecide(m) => if SendViaTcpRequired(m) then RLockTcp(m) else RLogEnd
    case RLogPush(m) => RSize(m)
    case RSize(m) => RInsert(m, Size(s.queue))
    case RInsert(_, _) => RNotify
    case RNotify => RUnlockTcp
    case RUnlockTcp => RLogEnd
    case RLogEnd => RUnlock
    case RUnlock => ROpen
    case SBegin => SLock
    case STest => if Size(s.queue) == 0 then SParked(false) else SIndex
    case SParked(_) => SRelock
    case SIndex => if s.queue.Leaf? then SCrashed else SValue(LeastKey(s.queue))
    case SValue(i) => if s.queue.Leaf? then SCrashed else SRemove(i, LeastValue(s.queue))
    case SRemove(_, m) => SSize(m)
    case SSize(m) => SLogSize(m)
    case SLogSize(m) => SCheck(m)
    case SCheck(m) => if m.messageId % TCP_RESEND_ID != 0 then SLogBad(m) else SLogSend(m)
    case SLogBad(m) => SLogSend(m)
    case SLogSend(m) => SSend(m)
    case SSend(_) => if c == First then SLogEnd else SLogSkipped
    case SLogSkipped => SLogEnd
    case SLogEnd => SUnlock
    case SUnlock => SLock
    case _ => p
  }

  /** The locks that the action gives back: its leaf lock, and a mutex at the end of its scope or when parking. */
  function Released(s: Config, p: Pc): set<Lock> {
    match p
    case RUnlock => {MessageMutex}
    case RUnlockTcp => {TcpMutex}
    case SUnlock => {TcpMutex}
    case STest => {QueueMutex} + (if Size(s.queue) == 0 then {TcpMutex} else {})
    case _ => match p.Wants() case NoLock => {} case Needs(l) => {l}
  }

  /** notify_one: a parked sender will wake up; a notification that finds nobody parked is lost. */
  function Notified(pc: seq<Pc>): seq<Pc> {
    if |pc| > 0 && pc[0].SParked? then pc[0 := SParked(true)] else pc
  }

  ghost predicate Enabled(s: Config, t: nat, c: Choice) {
    && t < |s.pc|
    && match s.pc[t].Wants()
       case Needs(l) => l !in s.owner || (l.IsLeaf() && s.owner[l] == t)
       case NoLock =>
         match s.pc[t]
         case RClosed => false
         case SCrashed => false
         case SParked(notified) => notified || c == Second  // the second choice is a spurious wake-up
         case RReceive => c.Deliver? ==> c.m in s.net
         case _ => true
  }

  /** The action of thread t at its program counter, with every lock it needs in hand. */
  function Act(s: Config, t: nat, c: Choice): Config
    requires t < |s.pc|
  {
    var p := s.pc[t];
    var moved := s.(owner := s.owner - Released(s, p),
                    pc := (if p.RNotify? then Notified(s.pc) else s.pc)[t := Control(s, p, c)]);
    match p
    case RReceive => if c.Deliver? then moved.(delivered := s.delivered + [c.m]) else moved
    case SSend(m) => moved.(offered := s.offered + [m])
    case RSave(m) => moved.(store := Insert(s.store, m.messageId, m, ()), received := s.received + [m])
    case RInsert(m, at) => moved.(queue := Insert(s.queue, at, m, ()), events := s.events + [Push(m)])
    case SRemove(i, m) => moved.(queue := Delete(s.queue, i), events := s.events + [Pop], popped := s.popped + [m])
    case _ => moved
  }

  /** A step of thread t: take the lock it waits for, or act. */
  function ThreadStep(s: Config, t: nat, c: Choice): Config
    requires t < |s.pc|
  {
    match s.pc[t].Wants()
    case Needs(l) =>
      if l !in s.owner then s.(owner := s.owner[l := t], pc := s.pc[t := AfterLock(s.pc[t])])
      else Act(s, t, c)
    case NoLock => Act(s, t, c)
  }

  /** The server sends its next message. */
  function ServerSends(s: Config): Config {
    s.(count := Servers.NextCount(s.count), used := s.used + {s.count}, net := s.net + {MakeMessageDiv20(s.count)})
  }

  datatype Action = Thread(t: nat, c: Choice) | Server

  ghost predicate Next(s: Config, a: Action, s': Config) {
    match a
    case Thread(t, c) => Enabled(s, t, c) && s' == ThreadStep(s, t, c)
    case Server => s' == ServerSends(s)
  }

  /** s is reached from the start by n steps. */
  ghost predicate ReachableIn(receivers: nat, s: Config, n: nat)
    decreases n
  {
    if n == 0 then s == Start(receivers)
    else exists before, a :: ReachableIn(receivers, before, n - 1) && Next(before, a, s)
  }

  ghost predicate Reachable(receivers: nat, s: Config) {
    exists n :: ReachableIn(receivers, s, n)
  }
}
