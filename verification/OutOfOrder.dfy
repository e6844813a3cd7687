/** Pairs out of order in a sequence: the measure by which a bubble sort ends. */
module OutOfOrder {
  import opened Orders

  /** How many elements of s belong after x. */
  function After<K>(less: (K, K) -> bool, s: seq<K>, x: K): nat {
    if s == [] then 0 else After(less, s[..|s| - 1], x) + if less(x, s[|s| - 1]) then 1 else 0
  }

  /** The pairs i < j with s[j] less than s[i]. */
  function Inversions<K>(less: (K, K) -> bool, s: seq<K>): nat {
    if s == [] then 0 else Inversions(less, s[..|s| - 1]) + After(less, s[..|s| - 1], s[|s| - 1])
  }

  predicate Ordered<K>(less: (K, K) -> bool, s: seq<K>) {
    forall i, j :: 0 <= i < j < |s| ==> !less(s[j], s[i])
  }

  /** s with its i-th element and the one after it exchanged. */
  function Swapped<K>(s: seq<K>, i: nat): (r: seq<K>)
    requires i + 1 < |s|
    ensures |r| == |s| && multiset(r) == multiset(s)
  {
    s[i := s[i + 1]][i + 1 := s[i]]
  }

  lemma {:induction false} AfterSwap<K>(less: (K, K) -> bool, s: seq<K>, i: nat, x: K)
    requires i + 1 < |s|
    ensures After(less, Swapped(s, i), x) == After(less, s, x)
  {
    var r, n := Swapped(s, i), |s| - 1;
    if i + 1 < n {
      AfterSwap(less, s[..n], i, x);
      assert Swapped(s[..n], i) == r[..n];
    } else {
      assert r[..n][..i] == s[..i] && s[..n][..i] == s[..i];
    }
  }

  /** Exchanging two neighbours that are the wrong way round takes away exactly one inversion. */
  lemma {:induction false} SwapTakesOne<K>(less: (K, K) -> bool, s: seq<K>, i: nat)
    requires i + 1 < |s| && less(s[i + 1], s[i]) && !less(s[i], s[i + 1])
    ensures Inversions(less, Swapped(s, i)) == Inversions(less, s) - 1
  {
    var r, n := Swapped(s, i), |s| - 1;
    if i + 1 < n {
      SwapTakesOne(less, s[..n], i);
      assert Swapped(s[..n], i) == r[..n];
      AfterSwap(less, s[..n], i, s[n]);
    } else {
      assert r[..n][..i] == s[..i] && s[..n][..i] == s[..i];
    }
  }

  /** If no two neighbours are the wrong way round, nothing is. */
  lemma {:induction false} NeighboursDecide<K(!new)>(less: (K, K) -> bool, s: seq<K>, i: nat, j: nat)
    requires StrictWeak(less) && i < j < |s|
    requires forall k, l :: 0 <= k && l == k + 1 && l < |s| ==> !less(s[l], s[k])
    ensures !less(s[j], s[i])
  {
    if i + 1 == j {
    } else {
      NeighboursDecide(less, s, i, j - 1);
      assert WeakLaws(less, s[j], s[j - 1], s[i]);
    }
  }

  /** A sequence has no inversions exactly when it is ordered. */
  lemma {:induction false} NoInversionsWhenOrdered<K>(less: (K, K) -> bool, s: seq<K>)
    ensures Inversions(less, s) == 0 <==> Ordered(less, s)
  {
    if s == [] {
    } else {
      var n := |s| - 1;
      NoInversionsWhenOrdered(less, s[..n]);
      NoneAfter(less, s[..n], s[n]);
      if Ordered(less, s[..n]) && After(less, s[..n], s[n]) == 0 {
        forall i, j | 0 <= i < j < |s| ensures !less(s[j], s[i]) { assert j < n ==> !less(s[..n][j], s[..n][i]); }
      }
      if Ordered(less, s) {
        forall i, j | 0 <= i < j < n ensures !less(s[..n][j], s[..n][i]) { assert !less(s[j], s[i]); }
        forall i | 0 <= i < n ensures !less(s[n], s[..n][i]) { assert !less(s[n], s[i]); }
      }
    }
  }

  lemma {:induction false} NoneAfter<K>(less: (K, K) -> bool, s: seq<K>, x: K)
    ensures After(less, s, x) == 0 <==> forall i :: 0 <= i < |s| ==> !less(x, s[i])
  {
    if s == [] {
    } else {
      NoneAfter(less, s[..|s| - 1], x);
    }
  }
}
