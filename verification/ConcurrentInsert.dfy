/** Any number of threads filling one container. Each thread runs its own list of inserts, every
    insert a critical section on the container's mutex, and the message is a function of its key.
    Whatever the interleaving, the result is the same. */
module ConcurrentInsert {
  import opened OrderedMap

  datatype Phase = Outside | Locked | Inserted

  /** done[t]: inserts of thread t that took effect; phase[t]: where thread t is in its critical section. */
  datatype State<V> = State(done: seq<nat>, phase: seq<Phase>, m: map<nat, V>)

  ghost predicate Init<V>(programs: seq<seq<nat>>, s: State<V>) {
    && |s.done| == |s.phase| == |programs|
    && (forall t | 0 <= t < |programs| :: s.done[t] == 0 && s.phase[t] == Outside)
    && s.m == map[]
  }

  ghost predicate MutexFree<V>(s: State<V>) {
    forall t | 0 <= t < |s.phase| :: s.phase[t] == Outside
  }

  /** One step of thread t: lock, insert, or unlock. */
  ghost predicate Next<V>(programs: seq<seq<nat>>, message: nat -> V, s: State<V>, t: nat, s': State<V>)
    requires |s.done| == |s.phase| == |programs|
  {
    && t < |programs|
    && match s.phase[t]
       case Outside => s.done[t] < |programs[t]| && MutexFree(s) && s' == s.(phase := s.phase[t := Locked])
       case Locked =>
         && s.done[t] < |programs[t]|
         && var k := programs[t][s.done[t]];
            s' == State(s.done[t := s.done[t] + 1], s.phase[t := Inserted], InsertIfAbsent(s.m, k, message(k)))
       case Inserted => s' == s.(phase := s.phase[t := Outside])
  }

  /** The inserts that took effect are exactly the ones the map shows. */
  ghost predicate Inv<V>(programs: seq<seq<nat>>, message: nat -> V, s: State<V>) {
    && |s.done| == |s.phase| == |programs|
    && (forall t | 0 <= t < |programs| :: s.done[t] <= |programs[t]|)
    && (forall t | 0 <= t < |programs| :: s.phase[t] == Locked ==> s.done[t] < |programs[t]|)
    && (forall t, u | 0 <= t < |programs| && 0 <= u < |programs| :: s.phase[t] != Outside && s.phase[u] != Outside ==> t == u)
    && (forall k | k in s.m :: s.m[k] == message(k) && Executed(programs, s.done, k))
    && (forall t, i | 0 <= t < |programs| && 0 <= i < s.done[t] :: programs[t][i] in s.m)
  }

  ghost predicate Executed(programs: seq<seq<nat>>, done: seq<nat>, k: nat)
    requires |done| == |programs| && forall t | 0 <= t < |programs| :: done[t] <= |programs[t]|
  {
    exists t, i :: 0 <= t < |programs| && 0 <= i < done[t] && programs[t][i] == k
  }

  lemma StepKeepsInv<V>(programs: seq<seq<nat>>, message: nat -> V, s: State<V>, t: nat, s': State<V>)
    requires Inv(programs, message, s) && Next(programs, message, s, t, s')
    ensures Inv(programs, message, s')
  {
  }

  /** A run: states linked by steps of the threads named in schedule. */
  ghost predicate IsRun<V>(programs: seq<seq<nat>>, message: nat -> V, states: seq<State<V>>, schedule: seq<nat>) {
    && |states| == |schedule| + 1
    && Init(programs, states[0])
    && (forall i | 0 <= i < |states| :: |states[i].done| == |states[i].phase| == |programs|)
    && (forall i | 0 <= i < |schedule| :: Next(programs, message, states[i], schedule[i], states[i + 1]))
  }

  lemma {:induction false} RunKeepsInv<V>(programs: seq<seq<nat>>, message: nat -> V, states: seq<State<V>>, schedule: seq<nat>, n: nat)
    requires IsRun(programs, message, states, schedule) && n < |states|
    ensures Inv(programs, message, states[n])
  {
    if n == 0 {
    } else {
      RunKeepsInv(programs, message, states, schedule, n - 1);
      StepKeepsInv(programs, message, states[n - 1], schedule[n - 1], states[n]);
    }
  }

  /** Every key that some thread inserts. */
  ghost function AllKeys(programs: seq<seq<nat>>): set<nat> {
    set t, i | 0 <= t < |programs| && 0 <= i < |programs[t]| :: programs[t][i]
  }

  ghost predicate Finished<V>(programs: seq<seq<nat>>, s: State<V>) {
    |s.done| == |programs| && forall t | 0 <= t < |programs| :: s.done[t] == |programs[t]|
  }

  /** Every interleaving is possible: a thread can step exactly when it is inside, or has inserts left and nobody is inside. */
  lemma ThreadCanStep<V>(programs: seq<seq<nat>>, message: nat -> V, s: State<V>, t: nat)
    requires Inv(programs, message, s) && t < |programs|
    ensures (exists s' :: Next(programs, message, s, t, s'))
            <==> s.phase[t] != Outside
                 || (s.done[t] < |programs[t]| && forall u | 0 <= u < |programs| :: s.phase[u] == Outside)
  {
    match s.phase[t]
    case Outside =>
      if s.done[t] < |programs[t]| && MutexFree(s) {
        assert Next(programs, message, s, t, s.(phase := s.phase[t := Locked]));
      }
    case Locked =>
      var k := programs[t][s.done[t]];
      assert Next(programs, message, s, t,
                  State(s.done[t := s.done[t] + 1], s.phase[t := Inserted], InsertIfAbsent(s.m, k, message(k))));
    case Inserted =>
      assert Next(programs, message, s, t, s.(phase := s.phase[t := Outside]));
  }

  /** No run gets stuck: some thread can step exactly until every thread has done its inserts and left. */
  lemma StepsUntilFinished<V>(programs: seq<seq<nat>>, message: nat -> V, s: State<V>)
    requires Inv(programs, message, s)
    ensures (exists t, s' :: Next(programs, message, s, t, s')) <==> !(Finished(programs, s) && MutexFree(s))
  {
    if t :| 0 <= t < |programs| && s.phase[t] != Outside {
      ThreadCanStep(programs, message, s, t);
    } else if t :| 0 <= t < |programs| && s.done[t] != |programs[t]| {
      ThreadCanStep(programs, message, s, t);
    }
  }

  /** Confluence: every finished run ends with the same map, one entry per distinct key. */
  lemma Confluence<V>(programs: seq<seq<nat>>, message: nat -> V, states: seq<State<V>>, schedule: seq<nat>)
    requires IsRun(programs, message, states, schedule)
    requires Finished(programs, states[|schedule|])
    ensures var m := states[|schedule|].m;
            m.Keys == AllKeys(programs) && |m| == |AllKeys(programs)| && forall k | k in m :: m[k] == message(k)
  {
    RunKeepsInv(programs, message, states, schedule, |schedule|);
    var s := states[|schedule|];
    forall k | k in AllKeys(programs) ensures k in s.m {
      var t, i :| 0 <= t < |programs| && 0 <= i < |programs[t]| && programs[t][i] == k;
    }
    assert s.m.Keys == AllKeys(programs);
    assert |s.m| == |s.m.Keys|;
  }

  /** At most one thread is inside, and at every moment of every run the map holds exactly the inserts
      that took effect so far. */
  lemma Exclusion<V>(programs: seq<seq<nat>>, message: nat -> V, states: seq<State<V>>, schedule: seq<nat>, n: nat, t: nat, u: nat)
    requires IsRun(programs, message, states, schedule) && n < |states| && t < |programs| && u < |programs|
    ensures states[n].phase[t] != Outside && states[n].phase[u] != Outside ==> t == u
    ensures forall k :: k in states[n].m <==> exists v, i :: 0 <= v < |programs| && 0 <= i < states[n].done[v] <= |programs[v]| && programs[v][i] == k
  {
    RunKeepsInv(programs, message, states, schedule, n);
    var s := states[n];
    forall k ensures k in s.m <==> exists v, i :: 0 <= v < |programs| && 0 <= i < s.done[v] <= |programs[v]| && programs[v][i] == k {
    }
  }

  /** The shape of the functional test: at least one thread, all inserting 0, ..., n - 1. Whatever the
      number of threads, n messages remain. */
  lemma AllThreadsSameKeys<V>(programs: seq<seq<nat>>, message: nat -> V, states: seq<State<V>>, schedule: seq<nat>, n: nat)
    requires IsRun(programs, message, states, schedule) && Finished(programs, states[|schedule|])
    requires |programs| > 0
    requires forall t | 0 <= t < |programs| :: |programs[t]| == n && forall i | 0 <= i < n :: programs[t][i] == i
    ensures |states[|schedule|].m| == n
  {
    Confluence(programs, message, states, schedule);
    forall k | 0 <= k < n ensures k in AllKeys(programs) {
      assert programs[0][k] == k;
    }
    assert AllKeys(programs) == Interval(0, n);
    IntervalSize(0, n);
  }
}
