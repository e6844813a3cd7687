/** Strict weak orders, and sorted sequences as the reference model of the ordered tree. */
module Orders {

  /** The laws a Compare object must obey, stated for one triple so that proofs name the triples they use. */
  predicate WeakLaws<K>(less: (K, K) -> bool, x: K, y: K, z: K) {
    && !less(x, x)
    && (less(x, y) && less(y, z) ==> less(x, z))
    && (!less(x, y) && !less(y, z) ==> !less(x, z))
  }

  ghost predicate StrictWeak<K(!new)>(less: (K, K) -> bool) {
    forall x, y, z :: WeakLaws(less, x, y, z)
  }

  predicate Sorted<K>(less: (K, K) -> bool, ks: seq<K>) {
    forall i, j :: 0 <= i < j < |ks| ==> less(ks[i], ks[j])
  }

  predicate Equivalent<K>(less: (K, K) -> bool, x: K, y: K) {
    !less(x, y) && !less(y, x)
  }

  /** Linear search for the first key not less than k; |ks| if there is none. */
  function LowerBound<K>(less: (K, K) -> bool, ks: seq<K>, k: K): (i: nat)
    ensures i <= |ks|
  {
    if ks == [] || !less(ks[0], k) then 0 else 1 + LowerBound(less, ks[1..], k)
  }

  /** Linear search for the first key greater than k; |ks| if there is none. */
  function UpperBound<K>(less: (K, K) -> bool, ks: seq<K>, k: K): (i: nat)
    ensures i <= |ks|
  {
    if ks == [] || less(k, ks[0]) then 0 else 1 + UpperBound(less, ks[1..], k)
  }

  /** Linear search for a key equivalent to k; |ks| if there is none. */
  function Find<K>(less: (K, K) -> bool, ks: seq<K>, k: K): (i: nat)
    ensures i <= |ks|
  {
    if ks == [] || Equivalent(less, ks[0], k) then 0 else 1 + Find(less, ks[1..], k)
  }

  /** The number of keys equivalent to k. */
  function Count<K>(less: (K, K) -> bool, ks: seq<K>, k: K): nat {
    if ks == [] then 0 else (if Equivalent(less, ks[0], k) then 1 else 0) + Count(less, ks[1..], k)
  }

  lemma {:induction false} LowerBoundIs<K>(less: (K, K) -> bool, ks: seq<K>, k: K, i: nat)
    requires i <= |ks|
    requires forall j :: 0 <= j < i ==> less(ks[j], k)
    requires i < |ks| ==> !less(ks[i], k)
    ensures LowerBound(less, ks, k) == i
  {
    if i == 0 {
    } else {
      LowerBoundIs(less, ks[1..], k, i - 1);
    }
  }

  lemma {:induction false} UpperBoundIs<K>(less: (K, K) -> bool, ks: seq<K>, k: K, i: nat)
    requires i <= |ks|
    requires forall j :: 0 <= j < i ==> !less(k, ks[j])
    requires i < |ks| ==> less(k, ks[i])
    ensures UpperBound(less, ks, k) == i
  {
    if i == 0 {
    } else {
      UpperBoundIs(less, ks[1..], k, i - 1);
    }
  }

  lemma {:induction false} LowerBoundSplits<K>(less: (K, K) -> bool, ks: seq<K>, k: K)
    ensures var i := LowerBound(less, ks, k);
            (forall j :: 0 <= j < i ==> less(ks[j], k)) && (i < |ks| ==> !less(ks[i], k))
  {
    if ks == [] || !less(ks[0], k) {
    } else {
      LowerBoundSplits(less, ks[1..], k);
      var i := LowerBound(less, ks, k);
      forall j | 0 <= j < i ensures less(ks[j], k) {
        if j > 0 { assert ks[j] == ks[1..][j - 1]; }
      }
    }
  }

  /** In a sorted sequence everything from the lower bound on is not less than k, and at most
      one key is equivalent to k: the one at the lower bound. */
  lemma SortedLowerBound<K(!new)>(less: (K, K) -> bool, ks: seq<K>, k: K)
    requires StrictWeak(less) && Sorted(less, ks)
    ensures var i := LowerBound(less, ks, k);
            && (forall j :: 0 <= j < |ks| ==> (less(ks[j], k) <==> j < i))
            && (forall j :: 0 <= j < |ks| && j != i ==> !Equivalent(less, ks[j], k))
            && (i < |ks| ==> (Equivalent(less, ks[i], k) <==> !less(k, ks[i])))
  {
    LowerBoundSplits(less, ks, k);
    var i := LowerBound(less, ks, k);
    forall j | i < j < |ks| ensures !less(ks[j], k) && less(k, ks[j]) {
      assert less(ks[i], ks[j]);
      assert WeakLaws(less, ks[i], ks[j], k);
      assert WeakLaws(less, ks[i], k, ks[j]);
    }
  }

  /** In a sorted sequence the keys greater than k are those from the upper bound on. */
  lemma {:induction false} SortedUpperBound<K(!new)>(less: (K, K) -> bool, ks: seq<K>, k: K)
    requires StrictWeak(less) && Sorted(less, ks)
    ensures UpperBound(less, ks, k) <= |ks|
    ensures forall j :: 0 <= j < |ks| ==> (less(k, ks[j]) <==> UpperBound(less, ks, k) <= j)
  {
    if ks == [] {
    } else if less(k, ks[0]) {
      forall j | 0 <= j < |ks| ensures less(k, ks[j]) {
        if j > 0 { assert less(ks[0], ks[j]) && WeakLaws(less, k, ks[0], ks[j]); }
      }
    } else {
      SortedUpperBound(less, ks[1..], k);
      forall j | 0 <= j < |ks| ensures less(k, ks[j]) <==> UpperBound(less, ks, k) <= j {
        assert j > 0 ==> ks[j] == ks[1..][j - 1];
      }
    }
  }

  /** One comparison with the predecessor detects duplicates: if u splits the sorted keys into
      those not greater than k and those greater, then k is new exactly when the last key
      below the split is less than k. */
  lemma PredecessorDecides<K(!new)>(less: (K, K) -> bool, ks: seq<K>, k: K, u: nat)
    requires StrictWeak(less) && Sorted(less, ks) && u <= |ks|
    requires forall j :: 0 <= j < u ==> !less(k, ks[j])
    requires forall j :: u <= j < |ks| ==> less(k, ks[j])
    ensures u == UpperBound(less, ks, k)
    ensures (u == 0 || less(ks[u - 1], k)) <==> forall j :: 0 <= j < |ks| ==> !Equivalent(less, ks[j], k)
    ensures (u == 0 || less(ks[u - 1], k)) ==> u == LowerBound(less, ks, k)
    ensures u > 0 && !less(ks[u - 1], k) ==> LowerBound(less, ks, k) == u - 1 && Equivalent(less, ks[u - 1], k)
  {
    UpperBoundIs(less, ks, k, u);
    SortedLowerBound(less, ks, k);
    forall j | 0 <= j < u && less(ks[u - 1], k) ensures less(ks[j], k) {
      assert WeakLaws(less, ks[j], ks[u - 1], k);
    }
    forall j | u <= j < |ks| ensures !less(ks[j], k) {
      assert WeakLaws(less, k, ks[j], k);
    }
  }

  lemma {:induction false} FindIs<K>(less: (K, K) -> bool, ks: seq<K>, k: K, i: nat)
    requires i <= |ks|
    requires forall j :: 0 <= j < i ==> !Equivalent(less, ks[j], k)
    requires i < |ks| ==> Equivalent(less, ks[i], k)
    ensures Find(less, ks, k) == i
  {
    if i == 0 {
    } else {
      FindIs(less, ks[1..], k, i - 1);
    }
  }

  lemma {:induction false} CountIs<K>(less: (K, K) -> bool, ks: seq<K>, k: K, i: nat)
    requires i <= |ks|
    requires forall j :: 0 <= j < |ks| && j != i ==> !Equivalent(less, ks[j], k)
    ensures Count(less, ks, k) == if i < |ks| && Equivalent(less, ks[i], k) then 1 else 0
  {
    if ks == [] {
    } else {
      if i > 0 {
        CountIs(less, ks[1..], k, i - 1);
      } else {
        CountIs(less, ks[1..], k, |ks| - 1);
      }
    }
  }

  /** Linear search finds a key exactly if an equivalent one is there, and the first such. */
  lemma {:induction false} FindFinds<K>(less: (K, K) -> bool, ks: seq<K>, k: K)
    ensures var i := Find(less, ks, k);
            && (forall j :: 0 <= j < i ==> less(ks[j], k) || less(k, ks[j]))
            && (i < |ks| ==> !less(ks[i], k) && !less(k, ks[i]))
  {
    if ks == [] || Equivalent(less, ks[0], k) {
    } else {
      FindFinds(less, ks[1..], k);
      forall j | 0 <= j < Find(less, ks, k) ensures less(ks[j], k) || less(k, ks[j]) {
        assert j > 0 ==> ks[j] == ks[1..][j - 1];
      }
    }
  }

  /** Binary lookup through the lower bound agrees with linear search: the key found, if any, sits at
      the lower bound, no key occurs twice, and lower and upper bound are that far apart. */
  lemma LookupAgrees<K(!new)>(less: (K, K) -> bool, ks: seq<K>, k: K)
    requires StrictWeak(less) && Sorted(less, ks)
    ensures var i := LowerBound(less, ks, k);
            && Find(less, ks, k) == (if i < |ks| && !less(k, ks[i]) then i else |ks|)
            && UpperBound(less, ks, k) == i + Count(less, ks, k)
            && Count(less, ks, k) <= 1
  {
    var i := LowerBound(less, ks, k);
    SortedLowerBound(less, ks, k);
    CountIs(less, ks, k, i);
    forall j | 0 <= j < i ensures !less(k, ks[j]) {
      assert WeakLaws(less, k, ks[j], k);
    }
    if i < |ks| && !less(k, ks[i]) {
      FindIs(less, ks, k, i);
      if i + 1 < |ks| { assert WeakLaws(less, ks[i], k, ks[i + 1]); }
      UpperBoundIs(less, ks, k, i + 1);
    } else {
      FindIs(less, ks, k, |ks|);
      UpperBoundIs(less, ks, k, i);
    }
  }

  // ---------- Sorted sequences of values ----------

  function Keys<K, V>(keyOf: V -> K, s: seq<V>): (ks: seq<K>)
    ensures |ks| == |s|
  {
    seq(|s|, i requires 0 <= i < |s| => keyOf(s[i]))
  }

  /** The reference model of unique insertion. */
  function SortedInsert<K, V>(less: (K, K) -> bool, keyOf: V -> K, s: seq<V>, v: V): seq<V> {
    var i := LowerBound(less, Keys(keyOf, s), keyOf(v));
    if i < |s| && !less(keyOf(v), keyOf(s[i])) then s else s[..i] + [v] + s[i..]
  }

  lemma SortedInsertIsSorted<K(!new), V>(less: (K, K) -> bool, keyOf: V -> K, s: seq<V>, v: V)
    requires StrictWeak(less) && Sorted(less, Keys(keyOf, s))
    ensures Sorted(less, Keys(keyOf, SortedInsert(less, keyOf, s, v)))
  {
    var ks, k := Keys(keyOf, s), keyOf(v);
    var i := LowerBound(less, ks, k);
    SortedLowerBound(less, ks, k);
    if i == |s| || less(k, ks[i]) {
      var ks' := Keys(keyOf, SortedInsert(less, keyOf, s, v));
      assert ks' == ks[..i] + [k] + ks[i..];
      forall a, b | 0 <= a < b < |ks'| ensures less(ks'[a], ks'[b]) {
        if a == i && b > i + 1 { assert WeakLaws(less, k, ks[i], ks[b - 1]); }
      }
    }
  }

  /** After unique insertion the lower bound of v's key is where v, or its equivalent, sits. */
  lemma SortedInsertPlace<K(!new), V>(less: (K, K) -> bool, keyOf: V -> K, s: seq<V>, v: V)
    requires StrictWeak(less) && Sorted(less, Keys(keyOf, s))
    ensures var i, r := LowerBound(less, Keys(keyOf, s), keyOf(v)), SortedInsert(less, keyOf, s, v);
            && LowerBound(less, Keys(keyOf, r), keyOf(v)) == i < |r|
            && Equivalent(less, keyOf(r[i]), keyOf(v))
  {
    var ks, i := Keys(keyOf, s), LowerBound(less, Keys(keyOf, s), keyOf(v));
    LowerBoundSplits(less, ks, keyOf(v));
    assert WeakLaws(less, keyOf(v), keyOf(v), keyOf(v));
    var r := SortedInsert(less, keyOf, s, v);
    assert forall j :: 0 <= j < i ==> Keys(keyOf, r)[j] == keyOf(r[j]) == keyOf(s[j]) == ks[j];
    LowerBoundIs(less, Keys(keyOf, r), keyOf(v), i);
  }

  lemma SpliceMultiset<V>(s: seq<V>, i: nat, v: V)
    requires i <= |s|
    ensures multiset(s[..i] + [v] + s[i..]) == multiset(s) + multiset{v}
  {
    assert s == s[..i] + s[i..];
  }

  /** Unique insertion changes nothing exactly when an equivalent key is there already. */
  lemma SortedInsertNew<K(!new), V>(less: (K, K) -> bool, keyOf: V -> K, s: seq<V>, v: V)
    requires StrictWeak(less) && Sorted(less, Keys(keyOf, s))
    ensures var r := SortedInsert(less, keyOf, s, v);
            && (r == s <==> exists j :: 0 <= j < |s| && Equivalent(less, keyOf(s[j]), keyOf(v)))
            && (r != s ==> multiset(r) == multiset(s) + multiset{v})
  {
    var ks := Keys(keyOf, s);
    SortedLowerBound(less, ks, keyOf(v));
    var i := LowerBound(less, ks, keyOf(v));
    assert forall j :: 0 <= j < |s| ==> ks[j] == keyOf(s[j]);
    if i < |s| && !less(keyOf(v), keyOf(s[i])) {
      assert Equivalent(less, keyOf(s[i]), keyOf(v));
    } else {
      assert |SortedInsert(less, keyOf, s, v)| == |s| + 1;
      SpliceMultiset(s, i, v);
    }
  }

  // ---------- Runs of insertions ----------

  /** What a container holds after unique insertion of the values of run, one after the other. */
  function InsertAll<K, V>(less: (K, K) -> bool, keyOf: V -> K, run: seq<V>): seq<V> {
    if run == [] then [] else SortedInsert(less, keyOf, InsertAll(less, keyOf, run[..|run| - 1]), run[|run| - 1])
  }

  /** No earlier value of run has an equivalent key. */
  predicate IsFirst<K, V>(less: (K, K) -> bool, keyOf: V -> K, run: seq<V>, i: nat)
    requires i < |run|
  {
    forall j :: 0 <= j < i ==> !Equivalent(less, keyOf(run[j]), keyOf(run[i]))
  }

  lemma EquivalentIsTransitive<K(!new)>(less: (K, K) -> bool, x: K, y: K, z: K)
    requires StrictWeak(less) && Equivalent(less, x, y) && Equivalent(less, y, z)
    ensures Equivalent(less, x, z) && Equivalent(less, y, x)
  {
    assert WeakLaws(less, x, y, z) && WeakLaws(less, z, y, x);
  }

  lemma InsertedMembers<V>(s: seq<V>, r: seq<V>, v: V, u: V)
    requires r == s || multiset(r) == multiset(s) + multiset{v}
    ensures u in r <==> u in s || (r != s && u == v)
  {
    assert u in r <==> u in multiset(r);
    assert u in s <==> u in multiset(s);
  }

  /** The last value of a run is the first with its key exactly if the container holds no equivalent one. */
  lemma FirstIsNew<K(!new), V>(less: (K, K) -> bool, keyOf: V -> K, run: seq<V>, s: seq<V>)
    requires StrictWeak(less) && run != []
    requires forall v :: v in s <==> FirstOfItsKey(less, keyOf, run[..|run| - 1], v)
    ensures IsFirst(less, keyOf, run, |run| - 1)
       <==> !exists j :: 0 <= j < |s| && Equivalent(less, keyOf(s[j]), keyOf(run[|run| - 1]))
  {
    var n := |run| - 1;
    var init := run[..n];
    if j :| 0 <= j < |s| && Equivalent(less, keyOf(s[j]), keyOf(run[n])) {
      assert s[j] in s;
      var i :| 0 <= i < |init| && init[i] == s[j] && IsFirst(less, keyOf, init, i);
      assert Equivalent(less, keyOf(run[i]), keyOf(run[n]));
    }
    if !IsFirst(less, keyOf, run, n) {
      var j :| 0 <= j < n && Equivalent(less, keyOf(run[j]), keyOf(run[n]));
      var i := FirstLike(less, keyOf, init, j);
      EquivalentIsTransitive(less, keyOf(init[i]), keyOf(init[j]), keyOf(run[n]));
      assert FirstOfItsKey(less, keyOf, init, init[i]) && init[i] in s;
    }
  }

  /** The earliest value with a key equivalent to that of the j-th. */
  lemma {:induction false} FirstLike<K(!new), V>(less: (K, K) -> bool, keyOf: V -> K, run: seq<V>, j: nat)
    returns (i: nat)
    requires StrictWeak(less) && j < |run|
    ensures i <= j && Equivalent(less, keyOf(run[i]), keyOf(run[j])) && IsFirst(less, keyOf, run, i)
    decreases j
  {
    if IsFirst(less, keyOf, run, j) {
      i := j;
      assert WeakLaws(less, keyOf(run[j]), keyOf(run[j]), keyOf(run[j]));
    } else {
      var k :| 0 <= k < j && Equivalent(less, keyOf(run[k]), keyOf(run[j]));
      i := FirstLike(less, keyOf, run, k);
      EquivalentIsTransitive(less, keyOf(run[i]), keyOf(run[k]), keyOf(run[j]));
    }
  }

  /** v occurs in run before every other value with an equivalent key. */
  ghost predicate FirstOfItsKey<K, V>(less: (K, K) -> bool, keyOf: V -> K, run: seq<V>, v: V) {
    exists i :: 0 <= i < |run| && run[i] == v && IsFirst(less, keyOf, run, i)
  }

  /** One more value in the run adds nothing but itself, and that if no earlier one has its key. */
  lemma FirstOfItsKeyStep<K, V>(less: (K, K) -> bool, keyOf: V -> K, run: seq<V>, v: V)
    requires run != []
    ensures var n := |run| - 1;
            FirstOfItsKey(less, keyOf, run, v) <==>
            FirstOfItsKey(less, keyOf, run[..n], v) || (v == run[n] && IsFirst(less, keyOf, run, n))
  {
    var n := |run| - 1;
    var init := run[..n];
    if i :| 0 <= i < |run| && run[i] == v && IsFirst(less, keyOf, run, i) && i < n {
      assert init[i] == v && IsFirst(less, keyOf, init, i);
    }
    if i :| 0 <= i < |init| && init[i] == v && IsFirst(less, keyOf, init, i) {
      assert run[i] == v && IsFirst(less, keyOf, run, i);
    }
  }

  /** Over any run the container is sorted and holds exactly the first value of each key: later
      values with an equivalent key change nothing, and no value is lost. */
  lemma {:induction false} FirstInsertionWins<K(!new), V>(less: (K, K) -> bool, keyOf: V -> K, run: seq<V>)
    requires StrictWeak(less)
    ensures Sorted(less, Keys(keyOf, InsertAll(less, keyOf, run)))
    ensures forall v :: v in InsertAll(less, keyOf, run) <==> FirstOfItsKey(less, keyOf, run, v)
  {
    if run == [] {
    } else {
      var n := |run| - 1;
      var s, r := InsertAll(less, keyOf, run[..n]), InsertAll(less, keyOf, run);
      FirstInsertionWins(less, keyOf, run[..n]);
      SortedInsertIsSorted(less, keyOf, s, run[n]);
      SortedInsertNew(less, keyOf, s, run[n]);
      FirstIsNew(less, keyOf, run, s);
      forall v ensures v in r <==> FirstOfItsKey(less, keyOf, run, v) {
        InsertedMembers(s, r, run[n], v);
        FirstOfItsKeyStep(less, keyOf, run, v);
      }
    }
  }
}
