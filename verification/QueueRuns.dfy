/** Whole runs of the TCP queue: what is delivered, in which order, and what is lost. */
module QueueRuns {
  import opened OrderedMap
  import opened Queue

  datatype Event<V> = Push(value: V) | Pop

  /** The queue and what has happened to it; filling: no pop has happened since the queue was last empty. */
  datatype State<V> = State(q: map<nat, V>, pushed: seq<V>, accepted: seq<V>, popped: seq<V>, filling: bool)

  ghost function Init<V>(): State<V> {
    State(map[], [], [], [], true)
  }

  ghost function Step<V>(s: State<V>, e: Event<V>): State<V> {
    match e
    case Push(v) =>
      s.(q := PushMap(s.q, v), pushed := s.pushed + [v],
         accepted := if |s.q| in s.q then s.accepted else s.accepted + [v])
    case Pop =>
      if s.q == map[] then s
      else
        assert s.q.Keys != {};
        s.(q := PopMap(s.q), popped := s.popped + [s.q[Min(s.q.Keys)]], filling := PopMap(s.q) == map[])
  }

  ghost function RunFrom<V>(s: State<V>, es: seq<Event<V>>): State<V> {
    if es == [] then s else Step(RunFrom(s, es[..|es| - 1]), es[|es| - 1])
  }

  ghost function Run<V>(es: seq<Event<V>>): State<V> {
    RunFrom(Init(), es)
  }

  lemma RunSnoc<V>(s: State<V>, es: seq<Event<V>>, e: Event<V>)
    ensures RunFrom(s, es + [e]) == Step(RunFrom(s, es), e)
  {
    assert (es + [e])[..|es + [e]| - 1] == es;
  }

  lemma {:induction false} RunConcat<V>(s: State<V>, es: seq<Event<V>>, fs: seq<Event<V>>)
    ensures RunFrom(s, es + fs) == RunFrom(RunFrom(s, es), fs)
    decreases |fs|
  {
    if fs == [] {
      assert es + fs == es;
    } else {
      var n := |fs| - 1;
      RunConcat(s, es, fs[..n]);
      assert (es + fs)[..|es + fs| - 1] == es + fs[..n];
    }
  }

  // ------------------------------------------------------------ conservation

  lemma MinOfInsert<V>(q: map<nat, V>, k: nat, v: V)
    requires k !in q
    ensures k in q[k := v].Keys
    ensures var j := Min(q[k := v].Keys);
            if j == k then q[k := v] - {k} == q
            else j in q.Keys && j == Min(q.Keys) && q[k := v] - {j} == (q - {j})[k := v]
  {
    assert k in q[k := v].Keys;
    var j := Min(q[k := v].Keys);
    if j != k {
      assert j in q.Keys;
      assert Min(q.Keys) in q[k := v].Keys;
    }
  }

  lemma {:induction false} InOrderInsert<V>(q: map<nat, V>, k: nat, v: V)
    requires k !in q
    ensures multiset(InOrder(q[k := v])) == multiset(InOrder(q)) + multiset{v}
    decreases |q|
  {
    MinOfInsert(q, k, v);
    InOrderUnfold(q[k := v]);
    var j := Min(q[k := v].Keys);
    if j != k {
      InOrderUnfold(q);
      SizeAfterRemove(q, j);
      InOrderInsert(q - {j}, k, v);
    }
  }

  /** Everything delivered or still to be delivered, in delivery order. */
  ghost function Output<V>(s: State<V>): seq<V> {
    s.popped + InOrder(s.q)
  }

  lemma PopKeepsOutput<V>(s: State<V>)
    ensures Output(Step(s, Pop)) == Output(s)
  {
  }

  /** Conservation in every run: accepted messages are the popped ones and the stored ones, with multiplicity. */
  lemma {:induction false} Conservation<V>(es: seq<Event<V>>)
    ensures var s := Run(es);
            multiset(s.accepted) == multiset(s.popped) + multiset(InOrder(s.q))
    decreases |es|
  {
    if es == [] {
      var e: map<nat, V> := map[];
      assert InOrder(e) == [];
    } else {
      Conservation(es[..|es| - 1]);
      StepConserves(Run(es[..|es| - 1]), es[|es| - 1]);
    }
  }

  lemma StepConserves<V>(s: State<V>, e: Event<V>)
    requires multiset(s.accepted) == multiset(s.popped) + multiset(InOrder(s.q))
    ensures var s' := Step(s, e);
            multiset(s'.accepted) == multiset(s'.popped) + multiset(InOrder(s'.q))
  {
    match e
    case Pop =>
      PopKeepsOutput(s);
      assert multiset(Output(Step(s, Pop))) == multiset(Output(s));
    case Push(v) => PushConserves(s, v);
  }

  lemma PushConserves<V>(s: State<V>, v: V)
    ensures var s' := Step(s, Push(v));
            if |s.q| in s.q then s'.accepted == s.accepted && s'.q == s.q
            else s'.accepted == s.accepted + [v] && multiset(InOrder(s'.q)) == multiset(InOrder(s.q)) + multiset{v}
  {
    if |s.q| !in s.q { InOrderInsert(s.q, |s.q|, v); }
  }

  /** Dropped messages are the only ones missing: what was accepted was pushed. */
  lemma {:induction false} AcceptedWerePushed<V>(es: seq<Event<V>>)
    ensures multiset(Run(es).accepted) <= multiset(Run(es).pushed)
    ensures |Run(es).accepted| <= |Run(es).pushed|
    decreases |es|
  {
    if es == [] {
    } else {
      AcceptedWerePushed(es[..|es| - 1]);
    }
  }

  /** The output of a run has as many messages as were accepted, all of them pushed. */
  lemma OutputWasPushed<V>(es: seq<Event<V>>)
    ensures |Output(Run(es))| == |Run(es).accepted| <= |Run(es).pushed|
    ensures forall v | v in Output(Run(es)) :: v in Run(es).pushed
  {
    Conservation(es);
    AcceptedWerePushed(es);
    var s := Run(es);
    assert multiset(Output(s)) == multiset(s.accepted);
    assert |multiset(s.accepted)| == |s.accepted|;
    assert |multiset(Output(s))| == |Output(s)|;
    forall v | v in Output(s) ensures v in s.pushed {
      assert v in multiset(Output(s));
      assert v in multiset(s.pushed);
    }
  }

  /** Sizes and keys never outgrow the number of pushes. */
  lemma {:induction false} KeysBelowPushes<V>(es: seq<Event<V>>)
    ensures |Run(es).q| <= |Run(es).pushed|
    ensures forall k | k in Run(es).q :: k < |Run(es).pushed|
    decreases |es|
  {
    if es == [] {
    } else {
      var s := Run(es[..|es| - 1]);
      KeysBelowPushes(es[..|es| - 1]);
      match es[|es| - 1]
      case Push(v) => SizeAfterInsert(s.q, |s.q|, v);
      case Pop =>
        if s.q != map[] {
          assert s.q.Keys != {};
          SizeAfterRemove(s.q, Min(s.q.Keys));
        }
    }
  }

  // ------------------------------------------------------------ filling and draining

  /** A queue that no pop has touched since it was last empty is dense; one that has been popped
      and is not empty keeps a key at or above its size. */
  ghost predicate PhaseInv<V>(s: State<V>) {
    if s.filling then Dense(s.q) else s.q != map[] && exists k :: k in s.q && |s.q| <= k
  }

  lemma DensePop<V>(q: map<nat, V>)
    requires Dense(q) && PopMap(q) != map[]
    ensures |PopMap(q)| in PopMap(q)
  {
    DenseKeys(q);
    assert 0 < |q|;
    assert 0 in Interval(0, |q|) && |q| - 1 in Interval(0, |q|);
    assert Min(q.Keys) == 0;
    SizeAfterRemove(q, 0);
  }

  lemma StepKeepsPhase<V>(s: State<V>, e: Event<V>)
    requires PhaseInv(s)
    ensures PhaseInv(Step(s, e))
  {
    var s' := Step(s, e);
    match e
    case Push(v) =>
      SizeAfterInsert(s.q, |s.q|, v);
      if !s.filling {
        var k :| k in s.q && |s.q| <= k;
        assert k in s'.q && |s'.q| <= k;
      }
    case Pop =>
      if s'.q == map[] {
      } else if s.filling {
        DensePop(s.q);
      } else {
        assert s.q.Keys != {};
        var m := Min(s.q.Keys);
        var k :| k in s.q && |s.q| <= k;
        SizeAfterRemove(s.q, m);
        var j :| j in s'.q;
        assert (if k == m then j else k) in s'.q;
      }
  }

  lemma {:induction false} PhaseInRun<V>(es: seq<Event<V>>)
    ensures PhaseInv(Run(es))
    decreases |es|
  {
    if es == [] {
      var e: map<nat, V> := map[];
      assert Dense(e);
    } else {
      PhaseInRun(es[..|es| - 1]);
      StepKeepsPhase(Run(es[..|es| - 1]), es[|es| - 1]);
    }
  }

  /** In every run the queue still stores at the end exactly while no pop has happened since it was empty. */
  lemma FillingIffDense<V>(es: seq<Event<V>>)
    ensures Run(es).filling <==> Dense(Run(es).q)
  {
    PhaseInRun(es);
  }

  // ------------------------------------------------------------ first in, first out

  lemma MinOfAppend<V>(q: map<nat, V>, k: nat, v: V)
    requires (forall j | j in q :: j < k) && q.Keys != {}
    ensures q[k := v].Keys != {} && Min(q[k := v].Keys) == Min(q.Keys)
    ensures q[k := v][Min(q.Keys)] == q[Min(q.Keys)]
    ensures q[k := v] - {Min(q.Keys)} == (q - {Min(q.Keys)})[k := v]
  {
    assert Min(q.Keys) in q[k := v].Keys;
  }

  lemma InOrderSingle<V>(k: nat, v: V)
    ensures InOrder(map[k := v]) == [v]
  {
  }

  lemma {:induction false} InOrderAppend<V>(q: map<nat, V>, k: nat, v: V)
    requires forall j | j in q :: j < k
    ensures InOrder(q[k := v]) == InOrder(q) + [v]
    decreases |q|
  {
    if |q| == 0 {
      InOrderSingle(k, v);
      assert q[k := v] == map[k := v] && InOrder(q) == [];
    } else {
      InOrderUnfold(q);
      SizeAfterRemove(q, Min(q.Keys));
      MinOfAppend(q, k, v);
      InOrderUnfold(q[k := v]);
      InOrderAppend(q - {Min(q.Keys)}, k, v);
    }
  }

  lemma {:induction false} InOrderLast<V>(q: map<nat, V>)
    requires q.Keys != {}
    ensures |InOrder(q)| > 0
    ensures InOrder(q)[|InOrder(q)| - 1] == q[Max(q.Keys)]
    decreases |q|
  {
    InOrderUnfold(q);
    var j := Min(q.Keys);
    var rest := q - {j};
    var hi := Max(q.Keys);
    assert hi == j || hi in rest.Keys;
    if rest.Keys == {} {
      assert rest == map[];
      assert InOrder(rest) == [];
    } else {
      SizeAfterRemove(q, j);
      InOrderLast(rest);
      assert Max(rest.Keys) in q.Keys;
      assert j < Max(rest.Keys);
    }
  }

  /** Output order is input order. */
  ghost predicate Fifo<V>(s: State<V>) {
    Output(s) == s.pushed
  }

  /** Every push happens while the queue is empty or has not been popped since it was empty. */
  ghost predicate Disciplined<V>(es: seq<Event<V>>)
    decreases |es|
  {
    es != [] ==>
      && Disciplined(es[..|es| - 1])
      && (es[|es| - 1].Push? ==> Run(es[..|es| - 1]).filling)
  }

  ghost predicate Distinct<V>(vs: seq<V>) {
    forall i, j | 0 <= i < j < |vs| :: vs[i] != vs[j]
  }

  lemma PushOnDense<V>(s: State<V>, v: V)
    requires Dense(s.q)
    ensures Output(Step(s, Push(v))) == Output(s) + [v]
  {
    InOrderAppend(s.q, |s.q|, v);
  }

  /** A push that is dropped, or lands before an older message, ends first-in-first-out order. */
  lemma PushOnSparse<V>(s: State<V>, v: V)
    requires !Dense(s.q) && v !in Output(s) && |Output(s)| <= |s.pushed|
    ensures !Fifo(Step(s, Push(v)))
  {
    var s' := Step(s, Push(v));
    var top :| top in s.q.Keys && |s.q| <= top;
    if |s.q| !in s.q {
      var hi := Max(s'.q.Keys);
      assert top in s'.q.Keys;
      assert hi in s.q;
      InOrderLast(s'.q);
      InOrderHas(s.q, hi);
      assert Output(s')[|Output(s')| - 1] == s.q[hi];
      assert s.q[hi] in Output(s);
      assert s'.pushed[|s'.pushed| - 1] == v;
    }
  }

  lemma {:induction false} InOrderHas<V>(q: map<nat, V>, k: nat)
    requires k in q
    ensures q[k] in InOrder(q)
    decreases |q|
  {
    InOrderUnfold(q);
    var j := Min(q.Keys);
    if j != k {
      SizeAfterRemove(q, j);
      InOrderHas(q - {j}, k);
    }
  }

  /** Without discipline no order is promised; with it every run delivers in order, whatever the messages are. */
  lemma {:induction false} DisciplinedIsFifo<V>(es: seq<Event<V>>)
    requires Disciplined(es)
    ensures Fifo(Run(es))
    decreases |es|
  {
    if es == [] {
      var e: map<nat, V> := map[];
      assert InOrder(e) == [];
    } else {
      var es0 := es[..|es| - 1];
      DisciplinedIsFifo(es0);
      FillingIffDense(es0);
      match es[|es| - 1]
      case Pop => PopKeepsOutput(Run(es0));
      case Push(v) => PushOnDense(Run(es0), v);
    }
  }

  /** For distinct messages the queue is first-in-first-out exactly in the disciplined runs. */
  lemma {:induction false} FifoIffDisciplined<V>(es: seq<Event<V>>)
    requires Distinct(Run(es).pushed)
    ensures Fifo(Run(es)) <==> Disciplined(es)
    decreases |es|
  {
    if es == [] {
      DisciplinedIsFifo(es);
    } else {
      var es0 := es[..|es| - 1];
      var s := Run(es0);
      assert s.pushed <= Run(es).pushed;
      assert Distinct(s.pushed) by {
        forall i, j | 0 <= i < j < |s.pushed| ensures s.pushed[i] != s.pushed[j] {
          assert Run(es).pushed[i] == s.pushed[i] && Run(es).pushed[j] == s.pushed[j];
        }
      }
      FifoIffDisciplined(es0);
      FillingIffDense(es0);
      match es[|es| - 1]
      case Pop => PopKeepsOutput(s);
      case Push(v) =>
        OutputWasPushed(es0);
        var all := Run(es).pushed;
        assert all == s.pushed + [v];
        assert forall i | 0 <= i < |s.pushed| :: all[i] != all[|s.pushed|];
        if Dense(s.q) { PushOnDense(s, v); } else { PushOnSparse(s, v); }
    }
  }

  // ------------------------------------------------------------ episodes

  /** The state of an episode opened by n pushes: key n - 1 is the largest, holds the n-th message,
      and the queue stays below n entries. */
  ghost predicate EpisodeInv<V>(s: State<V>, n: nat, last: V) {
    && n - 1 in s.q && s.q[n - 1] == last
    && (forall k | k in s.q :: k <= n - 1)
    && |s.q| <= n - 1
    && !s.filling
  }

  lemma StepKeepsEpisode<V>(s: State<V>, e: Event<V>, n: nat, last: V)
    requires 0 < n && EpisodeInv(s, n, last)
    ensures var s' := Step(s, e);
            if s'.q == map[] then s'.popped == s.popped + [last] else EpisodeInv(s', n, last)
  {
  }

  /** Pushing vs one after the other. */
  ghost function PushEvents<V>(vs: seq<V>): seq<Event<V>> {
    seq(|vs|, i requires 0 <= i < |vs| => Push(vs[i]))
  }

  lemma {:induction false} RunOfPushes<V>(s: State<V>, vs: seq<V>, n: nat)
    requires n <= |vs| && s.q == map[] && s.filling
    ensures var s' := RunFrom(s, PushEvents(vs)[..n]);
            s'.q == Pushes(map[], vs, n) && s'.filling && s'.popped == s.popped
  {
    if n == 0 {
    } else {
      RunOfPushes(s, vs, n - 1);
      var es := PushEvents(vs);
      assert es[..n] == es[..n - 1] + [es[n - 1]];
      RunSnoc(s, es[..n - 1], es[n - 1]);
    }
  }

  /** The queue after an episode has been opened: the pushes vs on an empty queue, and the first pop. */
  ghost function Opened<V>(s: State<V>, vs: seq<V>): State<V> {
    Step(RunFrom(s, PushEvents(vs)), Pop)
  }

  lemma EpisodeOpens<V>(s: State<V>, vs: seq<V>)
    requires s.q == map[] && s.filling && |vs| >= 2
    ensures EpisodeInv(Opened(s, vs), |vs|, vs[|vs| - 1])
  {
    var n := |vs|;
    RunOfPushes(s, vs, n);
    assert PushEvents(vs)[..n] == PushEvents(vs);
    PushesFromEmpty(vs);
    PopTail(vs, 0);
    TailMeaning(vs, 0);
    TailMeaning(vs, 1);
    assert 0 in Tail(vs, 0) && 1 in Tail(vs, 1);
  }

  /** The episode theorem. If at least two pushes precede the first pop on an empty queue then, whatever
      pushes and pops follow, until the queue is next empty its largest key is n - 1, it holds the
      n-th message and has at most n - 1 entries; and the n-th message is the last one delivered. */
  lemma {:induction false} Episode<V>(s: State<V>, vs: seq<V>, es: seq<Event<V>>)
    requires s.q == map[] && s.filling && |vs| >= 2
    requires forall i | 0 <= i < |es| :: RunFrom(Opened(s, vs), es[..i]).q != map[]
    ensures var s', last := RunFrom(Opened(s, vs), es), vs[|vs| - 1];
            if s'.q == map[] then |s'.popped| > 0 && s'.popped[|s'.popped| - 1] == last
            else EpisodeInv(s', |vs|, last)
    decreases |es|
  {
    EpisodeOpens(s, vs);
    if es == [] {
    } else {
      var es0 := es[..|es| - 1];
      forall i | 0 <= i < |es0| ensures RunFrom(Opened(s, vs), es0[..i]).q != map[] {
        assert es0[..i] == es[..i];
      }
      Episode(s, vs, es0);
      StepKeepsEpisode(RunFrom(Opened(s, vs), es0), es[|es| - 1], |vs|, vs[|vs| - 1]);
    }
  }

  /** The episode theorem for every run that reaches an empty queue. */
  lemma EpisodeInRun<V>(before: seq<Event<V>>, vs: seq<V>, es: seq<Event<V>>)
    requires Run(before).q == map[] && |vs| >= 2
    requires forall i | 0 <= i < |es| :: Run(before + PushEvents(vs) + [Pop] + es[..i]).q != map[]
    ensures var s, last := Run(before + PushEvents(vs) + [Pop] + es), vs[|vs| - 1];
            && (s.q == map[] ==> |s.popped| > 0 && s.popped[|s.popped| - 1] == last)
            && (s.q != map[] ==> s.q.Keys != {} && Max(s.q.Keys) == |vs| - 1 && s.q[|vs| - 1] == last && |s.q| < |vs|)
  {
    hide RunFrom, Step;
    PhaseInRun(before);
    forall i | 0 <= i <= |es| ensures Run(before + PushEvents(vs) + [Pop] + es[..i]) == RunFrom(Opened(Run(before), vs), es[..i]) {
      RunOfEpisode(before, vs, es[..i]);
    }
    assert es[..|es|] == es;
    Episode(Run(before), vs, es);
    var s := Run(before + PushEvents(vs) + [Pop] + es);
    if s.q != map[] {
      assert |vs| - 1 in s.q.Keys;
    }
  }

  lemma RunOfEpisode<V>(before: seq<Event<V>>, vs: seq<V>, es: seq<Event<V>>)
    ensures Run(before + PushEvents(vs) + [Pop] + es) == RunFrom(Opened(Run(before), vs), es)
  {
    RunConcat(Init(), before + PushEvents(vs) + [Pop], es);
    RunSnoc(Init(), before + PushEvents(vs), Pop);
    RunConcat(Init(), before, PushEvents(vs));
  }

  // ------------------------------------------------------------ what is not promised

  ghost function PopEvents<V>(m: nat): seq<Event<V>> {
    seq(m, _ => Pop)
  }

  lemma PopOfTail<V>(s: State<V>, vs: seq<V>, m: nat)
    requires m < |vs| && s.q == Tail(vs, m)
    ensures Step(s, Pop).q == Tail(vs, m + 1) && Step(s, Pop).popped == s.popped + [vs[m]]
  {
    PopTail(vs, m);
    TailMeaning(vs, m);
    assert m in s.q.Keys && Min(s.q.Keys) == m;
  }

  lemma PopsSnoc<V>(es: seq<Event<V>>, m: nat)
    requires m > 0
    ensures es + PopEvents(m) == es + PopEvents(m - 1) + [Pop]
  {
  }

  /** Without further pushes the pops deliver in order. */
  lemma {:induction false} PopsDeliver<V>(vs: seq<V>, m: nat)
    requires m <= |vs|
    ensures Run(PushEvents(vs) + PopEvents(m)).q == Tail(vs, m)
    ensures Run(PushEvents(vs) + PopEvents(m)).popped == vs[..m]
  {
    hide Tail, Pushes;
    if m == 0 {
      RunOfPushes(Init(), vs, |vs|);
      PushesFromEmpty(vs);
      assert PushEvents(vs) + PopEvents(0) == PushEvents(vs)[..|vs|];
    } else {
      PopsDeliver(vs, m - 1);
      var es := PushEvents(vs) + PopEvents(m - 1);
      PopsSnoc(PushEvents(vs), m);
      RunSnoc(Init(), es, Pop);
      PopOfTail(Run(es), vs, m - 1);
      assert vs[..m] == vs[..m - 1] + [vs[m - 1]];
    }
  }

  lemma {:induction false} PushedInOrder<V>(vs: seq<V>, n: nat)
    requires n <= |vs|
    ensures Run(PushEvents(vs)[..n]).pushed == vs[..n]
  {
    var es := PushEvents(vs);
    if n == 0 {
    } else {
      PushedInOrder(vs, n - 1);
      assert es[..n] == es[..n - 1] + [es[n - 1]];
      RunSnoc(Init(), es[..n - 1], es[n - 1]);
    }
  }

  lemma {:induction false} PopsKeepPushed<V>(vs: seq<V>, m: nat)
    ensures Run(PushEvents(vs) + PopEvents(m)).pushed == vs
  {
    if m == 0 {
      PushedInOrder(vs, |vs|);
      assert PushEvents(vs) + PopEvents(0) == PushEvents(vs)[..|vs|];
    } else {
      PopsKeepPushed(vs, m - 1);
      PopsSnoc(PushEvents(vs), m);
      RunSnoc(Init(), PushEvents(vs) + PopEvents(m - 1), Pop);
    }
  }

  /** After three pushes and a pop, a fourth message is lost. */
  lemma APushCanBeLost<V>(a: V, b: V, c: V, d: V)
    ensures var s := Run(PushEvents([a, b, c]) + PopEvents(1) + [Push(d)]);
            s.q == map[1 := b, 2 := c] && s.popped == [a] && s.pushed == [a, b, c, d]
  {
    var vs, es := [a, b, c], PushEvents([a, b, c]) + PopEvents(1);
    PopsDeliver(vs, 1);
    PopsKeepPushed(vs, 1);
    TailMeaning(vs, 1);
    assert Tail(vs, 1) == map[1 := b, 2 := c];
    RunSnoc(Init(), es, Push(d));
  }

  lemma TwoEntries<V>(d: V, c: V)
    ensures var q := map[1 := d, 2 := c];
            q.Keys != {} && Min(q.Keys) == 1 && q - {1} == map[2 := c] && q != map[]
  {
    var q := map[1 := d, 2 := c];
    assert 1 in q.Keys;
  }

  /** After three pushes and two pops, a fourth message overtakes the third. */
  lemma APushCanOvertake<V>(a: V, b: V, c: V, d: V)
    ensures var s := Run(PushEvents([a, b, c]) + PopEvents(2) + [Push(d)] + [Pop]);
            s.q == map[2 := c] && s.popped == [a, b, d] && s.pushed == [a, b, c, d]
  {
    var es := PushEvents([a, b, c]) + PopEvents(2);
    PushAfterTwoPops(a, b, c, d);
    RunSnoc(Init(), es + [Push(d)], Pop);
    TwoEntries(d, c);
  }

  lemma PushAfterTwoPops<V>(a: V, b: V, c: V, d: V)
    ensures var s := Run(PushEvents([a, b, c]) + PopEvents(2) + [Push(d)]);
            s.q == map[1 := d, 2 := c] && s.popped == [a, b] && s.pushed == [a, b, c, d]
  {
    var vs, es := [a, b, c], PushEvents([a, b, c]) + PopEvents(2);
    PopsDeliver(vs, 2);
    PopsKeepPushed(vs, 2);
    TailMeaning(vs, 2);
    assert Tail(vs, 2) == map[2 := c];
    RunSnoc(Init(), es, Push(d));
  }
}
