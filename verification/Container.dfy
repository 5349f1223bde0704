/** The thread-safe container: every operation of the tree wrapper inside one critical section.
    The contracts are those of the critical section seen by the thread that runs it. */
module Containers {
  import opened Messages
  import opened OrderedMap
  import opened SearchTree
  import opened BstWrapper

  /** A mutex that the running thread must not hold when it locks it; sections counts its critical sections. */
  class Mutex {
    var held: bool
    ghost var sections: nat

    constructor ()
      ensures !held
    {
      held, sections := false, 0;
    }

    method Lock()
      requires !held
      modifies this
      ensures held && sections == old(sections)
    {
      held := true;
    }

    method Unlock()
      requires held
      modifies this
      ensures !held && sections == old(sections) + 1
    {
      held, sections := false, sections + 1;
    }
  }

  class Container {
    const impl: BstImpl
    const mutex: Mutex
    ghost var objects: set<object>  // everything the container consists of

    ghost predicate Valid()
      reads this, objects
    {
      && {this, mutex, impl} <= objects && objects == {this, mutex, impl} + impl.nodes
      && this !in impl.nodes && mutex !in impl.nodes
      && !mutex.held && impl.Valid()
    }

    ghost function Contents(): map<nat, MessageFormat>
      reads impl
    {
      impl.Contents()
    }

    constructor ()
      ensures Valid() && fresh(objects)
      ensures Contents() == map[]
    {
      impl := new BstImpl();
      mutex := new Mutex();
      new;
      objects := {this, mutex, impl};
    }

    method Add(msg: MessageFormat)
      requires Valid()
      modifies objects
      ensures Valid() && fresh(objects - old(objects))
      ensures mutex.sections == old(mutex.sections) + 1
      ensures Contents() == InsertIfAbsent(old(Contents()), msg.messageId, msg)
    {
      hide BstImpl.Valid, BstImpl.Contents, Kept, Spliced;
      mutex.Lock();
      impl.Add(msg);
      objects := {this, mutex, impl} + impl.nodes;
      mutex.Unlock();
    }

    method Insert(msgId: nat, msg: MessageFormat)
      requires Valid()
      modifies objects
      ensures Valid() && fresh(objects - old(objects))
      ensures mutex.sections == old(mutex.sections) + 1
      ensures Contents() == InsertIfAbsent(old(Contents()), msgId, msg)
    {
      hide BstImpl.Valid, BstImpl.Contents, Kept, Spliced;
      mutex.Lock();
      impl.Insert(msgId, msg);
      objects := {this, mutex, impl} + impl.nodes;
      mutex.Unlock();
    }

    method BeginIndex() returns (key: nat)
      requires Valid() && Contents() != map[]
      modifies objects
      ensures Valid() && objects == old(objects) && Contents() == old(Contents())
      ensures mutex.sections == old(mutex.sections) + 1
      ensures Contents().Keys != {} && key == Min(Contents().Keys)
    {
      mutex.Lock();
      key := impl.BeginIndex();
      mutex.Unlock();
    }

    method BeginValue() returns (value: MessageFormat)
      requires Valid() && Contents() != map[]
      modifies objects
      ensures Valid() && objects == old(objects) && Contents() == old(Contents())
      ensures mutex.sections == old(mutex.sections) + 1
      ensures Contents().Keys != {} && value == Contents()[Min(Contents().Keys)]
    {
      mutex.Lock();
      value := impl.BeginValue();
      mutex.Unlock();
    }

    /** Removal of the least key is exact; removal of another key may move its value to the next key. */
    method Remove(msgId: nat)
      requires Valid()
      modifies objects
      ensures Valid() && objects <= old(objects)
      ensures mutex.sections == old(mutex.sections) + 1
      ensures Contents() == RemoveEffect(old(Contents()), msgId, old(TwoChildren(impl.tree, msgId)))
      ensures old(Contents().Keys != {} && msgId == Min(Contents().Keys)) ==> Contents() == old(Contents()) - {msgId}
    {
      hide BstImpl.Valid, BstImpl.Contents, Kept, Spliced;
      mutex.Lock();
      impl.Remove(msgId);
      objects := {this, mutex, impl} + impl.nodes;
      mutex.Unlock();
    }

    method Size() returns (size: nat)
      requires Valid()
      modifies objects
      ensures Valid() && objects == old(objects) && Contents() == old(Contents())
      ensures mutex.sections == old(mutex.sections) + 1
      ensures size == |Contents()|
    {
      mutex.Lock();
      size := impl.CachedSize();
      mutex.Unlock();
    }

    method Empty() returns (empty: bool)
      requires Valid()
      modifies objects
      ensures Valid() && objects == old(objects) && Contents() == old(Contents())
      ensures mutex.sections == old(mutex.sections) + 1
      ensures empty <==> Contents() == map[]
    {
      mutex.Lock();
      empty := impl.Empty();
      mutex.Unlock();
    }
  }
}
