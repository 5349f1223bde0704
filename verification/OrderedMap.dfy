/** Finite maps from keys to values, seen in key order. This is what a message container
    means to its callers. */
module OrderedMap {

  ghost predicate IsMin(s: set<nat>, k: nat) {
    k in s && forall j | j in s :: k <= j
  }

  ghost predicate IsMax(s: set<nat>, k: nat) {
    k in s && forall j | j in s :: j <= k
  }

  lemma {:induction false} ExtremesExist(s: set<nat>)
    requires s != {}
    ensures exists k :: IsMin(s, k)
    ensures exists k :: IsMax(s, k)
  {
    var x :| x in s;
    if s == {x} {
      assert IsMin(s, x) && IsMax(s, x);
    } else {
      var rest := s - {x};
      assert s == rest + {x};
      ExtremesExist(rest);
      var lo, hi :| IsMin(rest, lo) && IsMax(rest, hi);
      assert IsMin(s, if x < lo then x else lo);
      assert IsMax(s, if x < hi then hi else x);
    }
  }

  ghost function Min(s: set<nat>): (k: nat)
    requires s != {}
    ensures k in s
    ensures forall j | j in s :: k <= j
  {
    ExtremesExist(s);
    var k :| IsMin(s, k);
    k
  }

  ghost function Max(s: set<nat>): (k: nat)
    requires s != {}
    ensures k in s
    ensures forall j | j in s :: j <= k
  {
    ExtremesExist(s);
    var k :| IsMax(s, k);
    k
  }

  /** The keys lo, lo + 1, ..., hi - 1. */
  ghost function Interval(lo: nat, hi: nat): (s: set<nat>)
    ensures forall k :: k in s <==> lo <= k < hi
  {
    if hi <= lo then {} else Interval(lo, hi - 1) + {hi - 1}
  }

  lemma {:induction false} IntervalSize(lo: nat, hi: nat)
    requires lo <= hi
    ensures |Interval(lo, hi)| == hi - lo
    decreases hi
  {
    if lo == hi {
      assert Interval(lo, hi) == {};
    } else {
      IntervalSize(lo, hi - 1);
      assert Interval(lo, hi) == Interval(lo, hi - 1) + {hi - 1};
    }
  }

  lemma SubsetSize<T>(a: set<T>, b: set<T>)
    requires a <= b
    ensures |a| <= |b|
    ensures |a| == |b| ==> a == b
  {
    assert b == a + (b - a);
  }

  /** Pigeonhole: a set of keys that is not exactly {0, ..., |s| - 1} reaches beyond its own size. */
  lemma Pigeonhole(s: set<nat>)
    ensures s == Interval(0, |s|) <==> forall k | k in s :: k < |s|
  {
    if forall k | k in s :: k < |s| {
      IntervalSize(0, |s|);
      SubsetSize(s, Interval(0, |s|));
    }
  }

  ghost function InsertIfAbsent<V>(m: map<nat, V>, k: nat, v: V): map<nat, V> {
    if k in m then m else m[k := v]
  }

  ghost function KeysAbove<V>(m: map<nat, V>, k: nat): set<nat> {
    set j | j in m.Keys && k < j
  }

  /** The key that follows k in m. */
  ghost function Successor<V>(m: map<nat, V>, k: nat): (r: nat)
    requires KeysAbove(m, k) != {}
    ensures r in m && k < r
    ensures forall j | j in m && k < j :: r <= j
  {
    var above := KeysAbove(m, k);
    assert forall j | j in m && k < j :: j in above;
    Min(above)
  }

  lemma SizeAfterInsert<V>(m: map<nat, V>, k: nat, v: V)
    ensures |InsertIfAbsent(m, k, v)| == |m| + (if k in m then 0 else 1)
  {
  }

  lemma SizeAfterRemove<V>(m: map<nat, V>, k: nat)
    requires k in m
    ensures |m - {k}| == |m| - 1
  {
  }

  /** The entries of m by increasing key. */
  ghost function Entries<V>(m: map<nat, V>): (es: seq<(nat, V)>)
    ensures |es| == |m|
    decreases |m|
  {
    if |m| == 0 then []
    else
      assert m.Keys != {};
      var k := Min(m.Keys);
      SizeAfterRemove(m, k);
      [(k, m[k])] + Entries(m - {k})
  }

  /** The values of m by increasing key. */
  ghost function InOrder<V>(m: map<nat, V>): (vs: seq<V>)
    ensures |vs| == |m|
  {
    var es := Entries(m);
    seq(|es|, i requires 0 <= i < |es| => es[i].1)
  }

  lemma InOrderUnfold<V>(m: map<nat, V>)
    requires m != map[]
    ensures m.Keys != {}
    ensures InOrder(m) == [m[Min(m.Keys)]] + InOrder(m - {Min(m.Keys)})
  {
    assert m.Keys != {};
    assert |m| == |m.Keys|;
    var k := Min(m.Keys);
    assert Entries(m) == [(k, m[k])] + Entries(m - {k});
  }

  // ------------------------------------------------------------ maps joined around a key

  ghost predicate AllBelow(s: set<nat>, k: nat) {
    forall j | j in s :: j < k
  }

  ghost predicate AllAbove(s: set<nat>, k: nat) {
    forall j | j in s :: k < j
  }

  /** The least key s of the upper part can take the place of k. */
  lemma SuccessorKeys(l: set<nat>, k: nat, r: set<nat>, s: nat)
    requires AllBelow(l, k) && AllAbove(r, k)
    requires s in r && forall j | j in r :: s <= j
    ensures AllBelow(l, s) && AllAbove(r - {s}, s)
    ensures l + {s} + (r - {s}) == l + {k} + r - {k}
  {
  }

  /** All entries of l and r and the entry (k, v) between them. */
  ghost function Join<V>(l: map<nat, V>, k: nat, v: V, r: map<nat, V>): (m: map<nat, V>)
    ensures m.Keys == l.Keys + {k} + r.Keys
  {
    l + r + map[k := v]
  }

  lemma JoinInsert<V>(l: map<nat, V>, k: nat, v: V, r: map<nat, V>, key: nat, value: V)
    requires AllBelow(l.Keys, k) && AllAbove(r.Keys, k)
    ensures key < k ==> Join(InsertIfAbsent(l, key, value), k, v, r) == InsertIfAbsent(Join(l, k, v, r), key, value)
    ensures key > k ==> Join(l, k, v, InsertIfAbsent(r, key, value)) == InsertIfAbsent(Join(l, k, v, r), key, value)
  {
  }

  lemma JoinRemoveLeft<V>(l: map<nat, V>, k: nat, v: V, r: map<nat, V>, key: nat)
    requires AllAbove(r.Keys, k) && key < k
    ensures Join(l - {key}, k, v, r) == Join(l, k, v, r) - {key}
  {
  }

  lemma JoinRemoveRight<V>(l: map<nat, V>, k: nat, v: V, r: map<nat, V>, key: nat)
    requires AllBelow(l.Keys, k) && key > k
    ensures Join(l, k, v, r - {key}) == Join(l, k, v, r) - {key}
  {
  }

  lemma JoinRemoveMiddle<V>(l: map<nat, V>, k: nat, v: V, r: map<nat, V>)
    requires AllBelow(l.Keys, k) && AllAbove(r.Keys, k)
    ensures l + r == Join(l, k, v, r) - {k}
  {
  }

  lemma JoinRemove<V>(l: map<nat, V>, k: nat, v: V, r: map<nat, V>, key: nat)
    requires AllBelow(l.Keys, k) && AllAbove(r.Keys, k)
    ensures key < k ==> Join(l - {key}, k, v, r) == Join(l, k, v, r) - {key}
    ensures key > k ==> Join(l, k, v, r - {key}) == Join(l, k, v, r) - {key}
    ensures l + r == Join(l, k, v, r) - {k}
  {
    JoinRemoveMiddle(l, k, v, r);
    if key < k {
      JoinRemoveLeft(l, k, v, r, key);
    } else if key > k {
      JoinRemoveRight(l, k, v, r, key);
    }
  }

  lemma JoinLookup<V>(l: map<nat, V>, k: nat, v: V, r: map<nat, V>, key: nat)
    requires AllBelow(l.Keys, k) && AllAbove(r.Keys, k)
    requires key in Join(l, k, v, r)
    ensures key < k ==> key in l && Join(l, k, v, r)[key] == l[key]
    ensures key > k ==> key in r && Join(l, k, v, r)[key] == r[key]
    ensures key == k ==> Join(l, k, v, r)[key] == v
  {
  }

  /** Map after a two-children deletion: key is gone and its successor now carries its value. */
  ghost function RemoveAndShift<V>(m: map<nat, V>, key: nat): map<nat, V>
    requires key in m && KeysAbove(m, key) != {}
  {
    (m - {key})[Successor(m, key) := m[key]]
  }

  lemma JoinShiftLeft<V>(l: map<nat, V>, k: nat, v: V, r: map<nat, V>, key: nat)
    requires AllBelow(l.Keys, k) && AllAbove(r.Keys, k)
    requires key in l && KeysAbove(l, key) != {}
    ensures KeysAbove(Join(l, k, v, r), key) != {}
    ensures Join(RemoveAndShift(l, key), k, v, r) == RemoveAndShift(Join(l, k, v, r), key)
  {
    var m, s := Join(l, k, v, r), Successor(l, key);
    assert s in KeysAbove(m, key);
    assert Successor(m, key) == s;
    JoinRemoveLeft(l, k, v, r, key);
    JoinLookup(l, k, v, r, key);
    JoinUpdate(l - {key}, k, v, r, s, l[key]);
  }

  lemma JoinShiftRight<V>(l: map<nat, V>, k: nat, v: V, r: map<nat, V>, key: nat)
    requires AllBelow(l.Keys, k) && AllAbove(r.Keys, k)
    requires key in r && KeysAbove(r, key) != {}
    ensures KeysAbove(Join(l, k, v, r), key) != {}
    ensures Join(l, k, v, RemoveAndShift(r, key)) == RemoveAndShift(Join(l, k, v, r), key)
  {
    var m, s := Join(l, k, v, r), Successor(r, key);
    assert s in KeysAbove(m, key);
    assert Successor(m, key) == s;
    JoinRemoveRight(l, k, v, r, key);
    JoinLookup(l, k, v, r, key);
    JoinUpdate(l, k, v, r - {key}, s, r[key]);
  }

  lemma JoinUpdate<V>(l: map<nat, V>, k: nat, v: V, r: map<nat, V>, s: nat, x: V)
    requires AllBelow(l.Keys, k) && AllAbove(r.Keys, k)
    ensures s < k ==> Join(l[s := x], k, v, r) == Join(l, k, v, r)[s := x]
    ensures s > k ==> Join(l, k, v, r[s := x]) == Join(l, k, v, r)[s := x]
  {
  }

  lemma JoinShiftRoot<V>(l: map<nat, V>, k: nat, v: V, r: map<nat, V>)
    requires AllBelow(l.Keys, k) && AllAbove(r.Keys, k) && r.Keys != {}
    ensures KeysAbove(Join(l, k, v, r), k) != {}
    ensures Successor(Join(l, k, v, r), k) == Min(r.Keys)
    ensures Join(l, Min(r.Keys), v, r - {Min(r.Keys)}) == RemoveAndShift(Join(l, k, v, r), k)
  {
    var m, s := Join(l, k, v, r), Min(r.Keys);
    assert s in KeysAbove(m, k);
    assert Successor(m, k) == s;
    JoinLookup(l, k, v, r, k);
  }
}
