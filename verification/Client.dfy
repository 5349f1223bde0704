/** The receiver's two containers and what its critical sections do to them. The client's own
    mutexes and threads are modelled in module Protocol; a section here is one uninterrupted
    piece of client code, and its effect is exactly a step of the queue discipline. */
module Clients {
  import opened Messages
  import opened OrderedMap
  import opened Containers
  import Queue
  import Runs = QueueRuns

  class Client {
    const container: Container  // every message received over UDP
    const tcpQueue: Container  // messages waiting to be sent over TCP

    /** Two valid containers that share no object. */
    ghost predicate Valid()
      reads container, tcpQueue, container.objects, tcpQueue.objects
    {
      container.Valid() && tcpQueue.Valid() && container.objects !! tcpQueue.objects
    }

    constructor ()
      ensures Valid() && fresh(container.objects) && fresh(tcpQueue.objects)
      ensures container.Contents() == map[] && tcpQueue.Contents() == map[]
    {
      container := new Container();
      tcpQueue := new Container();
    }

    method SaveMessage(msg: MessageFormat)
      requires container.Valid()
      modifies container.objects
      ensures container.Valid() && fresh(container.objects - old(container.objects))
      ensures container.Contents() == InsertIfAbsent(old(container.Contents()), msg.messageId, msg)
    {
      container.Add(msg);
    }

    /** The push: insert at the current size. */
    method Push(msg: MessageFormat)
      requires tcpQueue.Valid()
      modifies tcpQueue.objects
      ensures tcpQueue.Valid() && fresh(tcpQueue.objects - old(tcpQueue.objects))
      ensures tcpQueue.Contents() == Queue.PushMap(old(tcpQueue.Contents()), msg)
    {
      var tcpQueueSize := tcpQueue.Size();
      tcpQueue.Insert(tcpQueueSize, msg);
    }

    /** What a receiver does with a message: it is saved, and forwarded only if its id asks for it. */
    method Receive(msg: MessageFormat)
      requires Valid()
      modifies container.objects, tcpQueue.objects
      ensures Valid()
      ensures fresh(container.objects - old(container.objects)) && fresh(tcpQueue.objects - old(tcpQueue.objects))
      ensures container.Contents() == InsertIfAbsent(old(container.Contents()), msg.messageId, msg)
      ensures msg.messageId == 10 ==> tcpQueue.Contents() == Queue.PushMap(old(tcpQueue.Contents()), msg)
      ensures msg.messageId != 10 ==> tcpQueue.Contents() == old(tcpQueue.Contents())
    {
      SaveMessage(msg);
      if SendViaTcpRequired(msg) {
        Push(msg);
      }
    }

    /** What the sender does once the queue is not empty: it takes the message with the least key. */
    method TakeNext() returns (msg: MessageFormat)
      requires tcpQueue.Valid() && tcpQueue.Contents() != map[]
      modifies tcpQueue.objects
      ensures tcpQueue.Valid() && tcpQueue.objects <= old(tcpQueue.objects)
      ensures tcpQueue.Contents() == Queue.PopMap(old(tcpQueue.Contents()))
      ensures old(tcpQueue.Contents().Keys) != {} && msg == old(tcpQueue.Contents()[Min(tcpQueue.Contents().Keys)])
    {
      var index := tcpQueue.BeginIndex();
      msg := tcpQueue.BeginValue();
      tcpQueue.Remove(index);
    }

    /** A round of the sender: it goes on waiting while the queue is empty. */
    method SendNext() returns (sent: seq<MessageFormat>)
      requires tcpQueue.Valid()
      modifies tcpQueue.objects
      ensures tcpQueue.Valid() && tcpQueue.objects <= old(tcpQueue.objects)
      ensures tcpQueue.Contents() == Queue.PopMap(old(tcpQueue.Contents()))
      ensures old(tcpQueue.Contents()) == map[] ==> sent == []
      ensures old(tcpQueue.Contents()) != map[] ==>
                old(tcpQueue.Contents().Keys) != {} && sent == [old(tcpQueue.Contents()[Min(tcpQueue.Contents().Keys)])]
    {
      var empty := tcpQueue.Empty();
      if empty {
        sent := [];
      } else {
        var msg := TakeNext();
        sent := [msg];
      }
    }
  }

  /** One event at the client whose queue is that of state s. */
  method Apply(client: Client, e: Runs.Event<MessageFormat>, ghost s: Runs.State<MessageFormat>) returns (sent: seq<MessageFormat>)
    requires client.Valid() && client.tcpQueue.Contents() == s.q
    modifies client.tcpQueue.objects
    ensures client.Valid() && fresh(client.tcpQueue.objects - old(client.tcpQueue.objects))
    ensures client.container.objects == old(client.container.objects)
    ensures client.tcpQueue.Contents() == Runs.Step(s, e).q
    ensures s.popped + sent == Runs.Step(s, e).popped
  {
    match e
    case Push(msg) =>
      client.Push(msg);
      sent := [];
    case Pop => sent := client.SendNext();
  }

  /** The client's queue on the heap goes through every run of pushes and pops as the queue of QueueRuns does. */
  method Replay(es: seq<Runs.Event<MessageFormat>>) returns (client: Client, popped: seq<MessageFormat>)
    ensures client.Valid()
    ensures client.tcpQueue.Contents() == Runs.Run(es).q
    ensures popped == Runs.Run(es).popped
  {
    client := new Client();
    popped := [];
    for i := 0 to |es|
      invariant client.Valid() && fresh(client.container.objects) && fresh(client.tcpQueue.objects)
      invariant client.tcpQueue.Contents() == Runs.Run(es[..i]).q
      invariant popped == Runs.Run(es[..i]).popped
    {
      assert es[..i + 1] == es[..i] + [es[i]];
      Runs.RunSnoc(Runs.Init(), es[..i], es[i]);
      var sent := Apply(client, es[i], Runs.Run(es[..i]));
      popped := popped + sent;
    }
    assert es[..|es|] == es;
  }

  /** The fourth message is gone: the queue holds the second and the third. */
  method LoseAPush(a: MessageFormat, b: MessageFormat, c: MessageFormat, d: MessageFormat) returns (client: Client)
    ensures client.Valid() && client.tcpQueue.Contents() == map[1 := b, 2 := c]
  {
    var popped;
    client, popped := Replay([Runs.Push(a), Runs.Push(b), Runs.Push(c), Runs.Pop, Runs.Push(d)]);
    Runs.APushCanBeLost(a, b, c, d);
    assert [Runs.Push(a), Runs.Push(b), Runs.Push(c), Runs.Pop, Runs.Push(d)]
        == Runs.PushEvents([a, b, c]) + Runs.PopEvents(1) + [Runs.Push(d)];
  }

  /** The fourth message is sent before the third. */
  method Overtake(a: MessageFormat, b: MessageFormat, c: MessageFormat, d: MessageFormat)
    returns (client: Client, popped: seq<MessageFormat>)
    ensures client.Valid() && popped == [a, b, d] && client.tcpQueue.Contents() == map[2 := c]
  {
    client, popped := Replay([Runs.Push(a), Runs.Push(b), Runs.Push(c), Runs.Pop, Runs.Pop, Runs.Push(d), Runs.Pop]);
    Runs.APushCanOvertake(a, b, c, d);
    assert [Runs.Push(a), Runs.Push(b), Runs.Push(c), Runs.Pop, Runs.Pop, Runs.Push(d), Runs.Pop]
        == Runs.PushEvents([a, b, c]) + Runs.PopEvents(2) + [Runs.Push(d)] + [Runs.Pop];
  }
}
