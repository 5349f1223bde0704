/** The TCP queue discipline: a push stores at the key size(), unless that key is taken;
    a pop takes the least key. This module says exactly when that behaves like a queue. */
module Queue {
  import opened OrderedMap

  /** A push: insert-if-absent at the current size. */
  ghost function PushMap<V>(q: map<nat, V>, v: V): map<nat, V> {
    InsertIfAbsent(q, |q|, v)
  }

  /** A pop: the entry with the least key goes. On an empty queue the sender waits and nothing changes. */
  ghost function PopMap<V>(q: map<nat, V>): map<nat, V> {
    if q == map[] then q else assert q.Keys != {}; q - {Min(q.Keys)}
  }

  /** Every key is below the size. */
  ghost predicate Dense<V>(q: map<nat, V>) {
    forall k | k in q :: k < |q|
  }

  /** Dense means that the keys are exactly 0, ..., size - 1. */
  lemma DenseKeys<V>(q: map<nat, V>)
    ensures Dense(q) <==> q.Keys == Interval(0, |q|)
  {
    assert |q.Keys| == |q|;
    Pigeonhole(q.Keys);
  }

  /** The queue after the first n of the pushes vs. */
  ghost function Pushes<V>(q: map<nat, V>, vs: seq<V>, n: nat): map<nat, V>
    requires n <= |vs|
  {
    if n == 0 then q else PushMap(Pushes(q, vs, n - 1), vs[n - 1])
  }

  /** Each value of vs from position lo on, stored at its position. */
  ghost function Tail<V>(vs: seq<V>, lo: nat): map<nat, V>
    requires lo <= |vs|
    decreases |vs| - lo
  {
    if lo == |vs| then map[] else Tail(vs, lo + 1)[lo := vs[lo]]
  }

  lemma {:induction false} TailMeaning<V>(vs: seq<V>, lo: nat)
    requires lo <= |vs|
    ensures forall k :: k in Tail(vs, lo) <==> lo <= k < |vs|
    ensures forall k | k in Tail(vs, lo) :: Tail(vs, lo)[k] == vs[k]
    ensures |Tail(vs, lo)| == |vs| - lo
    decreases |vs| - lo
  {
    if lo == |vs| {
    } else {
      TailMeaning(vs, lo + 1);
    }
  }

  ghost function KeysFrom<V>(q: map<nat, V>, lo: nat): set<nat> {
    set k | k in q.Keys && lo <= k
  }

  lemma NotDenseMeansKeyBeyond<V>(q: map<nat, V>)
    requires !Dense(q)
    ensures KeysFrom(q, |q|) != {}
  {
    var k :| k in q && |q| <= k;
    assert k in KeysFrom(q, |q|);
  }

  /** Free places between the size and the next live key. */
  ghost function Room<V>(q: map<nat, V>): nat
    requires !Dense(q)
  {
    NotDenseMeansKeyBeyond(q);
    Min(KeysFrom(q, |q|)) - |q|
  }

  /** How many of n pushes in a row the queue accepts. */
  ghost function AcceptedOf<V>(q: map<nat, V>, n: nat): nat {
    if Dense(q) || n <= Room(q) then n else Room(q)
  }

  lemma RoomIsFree<V>(q: map<nat, V>, k: nat)
    requires !Dense(q)
    ensures |q| + Room(q) in q
    ensures |q| <= k < |q| + Room(q) ==> k !in q
  {
    NotDenseMeansKeyBeyond(q);
    assert k in q && |q| <= k ==> k in KeysFrom(q, |q|);
  }

  lemma KeyFree<V>(q: map<nat, V>, n: nat)
    requires Dense(q) || n < Room(q)
    ensures |q| + n !in q
  {
    if !Dense(q) { RoomIsFree(q, |q| + n); }
  }

  /** q with the first a of vs stored at the keys |q|, |q| + 1, ... */
  ghost function Extended<V>(q: map<nat, V>, vs: seq<V>, a: nat): map<nat, V>
    requires a <= |vs|
  {
    if a == 0 then q else Extended(q, vs, a - 1)[|q| + a - 1 := vs[a - 1]]
  }

  lemma {:induction false} ExtendedLookup<V>(q: map<nat, V>, vs: seq<V>, a: nat, k: nat)
    requires a <= |vs|
    ensures k in Extended(q, vs, a) <==> k in q || |q| <= k < |q| + a
    ensures |q| <= k < |q| + a ==> Extended(q, vs, a)[k] == vs[k - |q|]
    ensures k in q && !(|q| <= k < |q| + a) ==> Extended(q, vs, a)[k] == q[k]
  {
    if a == 0 {
    } else {
      ExtendedLookup(q, vs, a - 1, k);
    }
  }

  lemma PushAt<V>(p: map<nat, V>, k: nat, v: V)
    requires |p| == k
    ensures k in p ==> PushMap(p, v) == p
    ensures k !in p ==> PushMap(p, v) == p[k := v] && |PushMap(p, v)| == k + 1
  {
    SizeAfterInsert(p, k, v);
  }

  /** The n-th push finds its place free. */
  lemma PushAccepted<V>(q: map<nat, V>, vs: seq<V>, n: nat)
    requires 0 < n <= |vs| && (Dense(q) || n <= Room(q))
    requires Pushes(q, vs, n - 1) == Extended(q, vs, n - 1) && |Pushes(q, vs, n - 1)| == |q| + n - 1
    ensures Pushes(q, vs, n) == Extended(q, vs, n) && |Pushes(q, vs, n)| == |q| + n
  {
    var p, k := Pushes(q, vs, n - 1), |q| + n - 1;
    assert k !in p by {
      KeyFree(q, n - 1);
      ExtendedLookup(q, vs, n - 1, k);
    }
    PushAt(p, k, vs[n - 1]);
  }

  /** The n-th push meets the next live key. */
  lemma PushDropped<V>(q: map<nat, V>, vs: seq<V>, n: nat)
    requires !Dense(q) && Room(q) < n <= |vs|
    requires Pushes(q, vs, n - 1) == Extended(q, vs, Room(q)) && |Pushes(q, vs, n - 1)| == |q| + Room(q)
    ensures Pushes(q, vs, n) == Pushes(q, vs, n - 1)
  {
    RoomIsFree(q, 0);
    ExtendedLookup(q, vs, Room(q), |q| + Room(q));
    PushAt(Pushes(q, vs, n - 1), |q| + Room(q), vs[n - 1]);
  }

  /** Exact effect of n pushes in a row: a first part is stored at consecutive keys from the size on,
      the rest is dropped and leaves the queue unchanged. */
  lemma {:induction false} PushesInARow<V>(q: map<nat, V>, vs: seq<V>, n: nat)
    requires n <= |vs|
    ensures Pushes(q, vs, n) == Extended(q, vs, AcceptedOf(q, n))
    ensures |Pushes(q, vs, n)| == |q| + AcceptedOf(q, n)
  {
    if n == 0 {
    } else {
      PushesInARow(q, vs, n - 1);
      if Dense(q) || n <= Room(q) {
        PushAccepted(q, vs, n);
      } else {
        PushDropped(q, vs, n);
      }
    }
  }

  /** Pushes are accepted forever exactly when the keys are 0, ..., size - 1. */
  lemma AcceptedForever<V>(q: map<nat, V>, v: V)
    ensures q.Keys == Interval(0, |q|) <==> forall vs: seq<V> :: |Pushes(q, vs, |vs|)| == |q| + |vs|
  {
    DenseKeys(q);
    if Dense(q) {
      forall vs: seq<V> ensures |Pushes(q, vs, |vs|)| == |q| + |vs| {
        PushesInARow(q, vs, |vs|);
      }
    } else {
      var vs := seq(Room(q) + 1, _ => v);
      PushesInARow(q, vs, |vs|);
      assert |Pushes(q, vs, |vs|)| != |q| + |vs|;
    }
  }

  /** The queue after m pops. */
  ghost function Pops<V>(q: map<nat, V>, m: nat): map<nat, V> {
    if m == 0 then q else PopMap(Pops(q, m - 1))
  }

  lemma PopTail<V>(vs: seq<V>, lo: nat)
    requires lo < |vs|
    ensures PopMap(Tail(vs, lo)) == Tail(vs, lo + 1)
  {
    var b, rest := Tail(vs, lo), Tail(vs, lo + 1);
    TailMeaning(vs, lo);
    TailMeaning(vs, lo + 1);
    assert lo in b.Keys;
    assert Min(b.Keys) == lo;
    assert rest[lo := vs[lo]] - {lo} == rest;
  }

  lemma PushesFromEmpty<V>(vs: seq<V>)
    ensures Pushes(map[], vs, |vs|) == Tail(vs, 0)
  {
    var e: map<nat, V> := map[];
    PushesInARow(e, vs, |vs|);
    forall k: nat ensures k in Extended(e, vs, |vs|) <==> k < |vs|
                  ensures k < |vs| ==> Extended(e, vs, |vs|)[k] == vs[k]
    {
      ExtendedLookup(e, vs, |vs|, k);
    }
    TailMeaning(vs, 0);
    assert Extended(e, vs, |vs|) == Tail(vs, 0);
  }

  lemma {:induction false} PopsOfTail<V>(vs: seq<V>, m: nat)
    requires m <= |vs|
    ensures Pops(Tail(vs, 0), m) == Tail(vs, m)
  {
    if m == 0 {
    } else {
      PopsOfTail(vs, m - 1);
      PopTail(vs, m - 1);
    }
  }

  /** From empty, pushes and then pops leave the interval of keys that has not been popped. */
  lemma PushesThenPops<V>(vs: seq<V>, m: nat)
    requires m <= |vs|
    ensures Pops(Pushes(map[], vs, |vs|), m) == Tail(vs, m)
    ensures forall k :: k in Tail(vs, m) <==> m <= k < |vs|
    ensures forall k | k in Tail(vs, m) :: Tail(vs, m)[k] == vs[k]
  {
    PushesFromEmpty(vs);
    PopsOfTail(vs, m);
    TailMeaning(vs, m);
  }

  /** After n pushes from empty and m pops the next push is accepted exactly when m = 0 or 2m > n. */
  lemma NextPushAccepted<V>(vs: seq<V>, m: nat, v: V)
    requires m <= |vs|
    ensures var q := Pops(Pushes(map[], vs, |vs|), m);
            PushMap(q, v) != q <==> m == 0 || 2 * m > |vs|
  {
    PushesThenPops(vs, m);
    TailMeaning(vs, m);
    PushChanges(Tail(vs, m), v);
  }

  lemma PushChanges<V>(q: map<nat, V>, v: V)
    ensures PushMap(q, v) != q <==> |q| !in q
  {
    assert |q| in PushMap(q, v);
  }
}
