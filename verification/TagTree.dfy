/** Oscl_TagTree (oscl_tagtree.h): values under tags such as a.b.c, with a node for every
    ancestor of a tag that has one. */
module TagTree {
  import opened OutOfOrder
  import opened Orders

  /** A tag is the sequence of its components; its depth is its length. */
  type Tag = seq<string>

  /** tag_ancestor drops the last component. */
  function Ancestor(t: Tag): Tag {
    if t == [] then [] else t[..|t| - 1]
  }

  // ---------- What the tree holds ----------

  /** The m longest prefixes of t, t itself among them. */
  ghost function Tops(t: Tag, m: nat): set<Tag>
    requires m <= |t| + 1
  {
    set q | |t| - m < q <= |t| :: t[..q]
  }

  ghost predicate PrefixClosed<T>(vs: map<Tag, T>) {
    forall t {:trigger Ancestor(t)} :: t in vs ==> Ancestor(t) in vs
  }

  /** The values once the m longest prefixes of t have nodes: what was there stays, t gets x, and
      every other new tag the default value. */
  ghost function Grown<T>(vs: map<Tag, T>, t: Tag, m: nat, x: T, blank: T): map<Tag, T>
    requires m <= |t| + 1
  {
    map k | k in vs.Keys + Tops(t, m) :: if k in vs then vs[k] else if k == t then x else blank
  }

  ghost function Inserted<T>(vs: map<Tag, T>, t: Tag, x: T, blank: T): map<Tag, T> {
    Grown(vs, t, |t| + 1, x, blank)
  }

  /** What an insertion leaves, tag by tag: the prefixes of t are added; a tag that was there keeps
      its value, t gets x if it was not, and any other new tag the default value. */
  lemma InsertedIs<T>(vs: map<Tag, T>, t: Tag, x: T, blank: T, k: Tag)
    ensures var r := Inserted(vs, t, x, blank);
            && (k in r <==> k in vs || k <= t)
            && (k in vs ==> r[k] == vs[k])
            && (k !in vs && k == t ==> r[k] == x)
            && (k !in vs && k <= t && k != t ==> r[k] == blank)
  {
    if k <= t { assert k == t[..|k|] && k in Tops(t, |t| + 1); }
  }

  /** All shorter prefixes are there as soon as one is. */
  lemma {:induction false} PrefixesThere<T>(vs: map<Tag, T>, t: Tag, q: nat)
    requires PrefixClosed(vs) && t in vs && q <= |t|
    ensures t[..q] in vs
  {
    if q == |t| {
      assert t[..q] == t;
    } else {
      PrefixesThere(vs, Ancestor(t), q);
      assert Ancestor(t)[..q] == t[..q];
    }
  }

  /** Stopping at the first prefix that is there leaves nothing out. */
  lemma GrownEnough<T>(vs: map<Tag, T>, t: Tag, m: nat, x: T, blank: T)
    requires PrefixClosed(vs) && m <= |t| && t[..|t| - m] in vs
    ensures Grown(vs, t, m, x, blank) == Inserted(vs, t, x, blank)
  {
    forall q | 0 <= q <= |t| - m ensures t[..q] in vs {
      PrefixesThere(vs, t[..|t| - m], q);
      assert t[..|t| - m][..q] == t[..q];
    }
    forall k ensures k in vs.Keys + Tops(t, |t| + 1) <==> k in vs.Keys + Tops(t, m) {
      if k in Tops(t, |t| + 1) {
        var q :| |t| - (|t| + 1) < q <= |t| && k == t[..q];
        assert q > |t| - m ==> k in Tops(t, m);
      }
    }
  }

  lemma AncestorOfPrefix(t: Tag, m: nat)
    requires m <= |t|
    ensures m < |t| ==> Ancestor(t[..|t| - m]) == t[..|t| - (m + 1)]
  {
  }

  lemma TopsAreLonger(t: Tag, m: nat, k: Tag)
    requires m <= |t| + 1 && k in Tops(t, m)
    ensures |k| > |t| - m
  {
    var q :| |t| - m < q <= |t| && k == t[..q];
  }

  lemma TopsIs(t: Tag, m: nat)
    requires m <= |t|
    ensures Tops(t, m + 1) == Tops(t, m) + {t[..|t| - m]}
  {
    var more := Tops(t, m + 1);
    forall k | k in more ensures k in Tops(t, m) + {t[..|t| - m]} {
      var q :| |t| - (m + 1) < q <= |t| && k == t[..q];
      assert q == |t| - m || k in Tops(t, m);
    }
  }

  lemma GrownStep<T>(vs: map<Tag, T>, t: Tag, m: nat, x: T, blank: T)
    requires m <= |t| && t[..|t| - m] !in vs
    ensures Grown(vs, t, m + 1, x, blank) == Grown(vs, t, m, x, blank)[t[..|t| - m] := if m == 0 then x else blank]
  {
    TopsIs(t, m);
    assert m == 0 <==> t[..|t| - m] == t;
  }

  lemma GrownStart<T>(vs: map<Tag, T>, t: Tag, x: T, blank: T)
    ensures Grown(vs, t, 0, x, blank) == vs
  {
    assert Tops(t, 0) == {};
  }

  /** An insertion keeps the key set closed under ancestors. */
  lemma InsertedIsPrefixClosed<T>(vs: map<Tag, T>, t: Tag, x: T, blank: T)
    requires PrefixClosed(vs)
    ensures PrefixClosed(Inserted(vs, t, x, blank))
  {
    var r := Inserted(vs, t, x, blank);
    forall k | k in r ensures Ancestor(k) in r {
      if k !in vs {
        var q :| |t| - (|t| + 1) < q <= |t| && k == t[..q];
        var p := if q == 0 then 0 else q - 1;
        assert Ancestor(k) == t[..p];
        assert t[..p] in Tops(t, |t| + 1);
      }
    }
  }

  /** The size grows by exactly the number of prefixes that were missing. */
  lemma InsertedSize<T>(vs: map<Tag, T>, t: Tag, x: T, blank: T)
    ensures |Inserted(vs, t, x, blank)| == |vs| + |Tops(t, |t| + 1) - vs.Keys|
  {
    var r, new_ := Inserted(vs, t, x, blank), Tops(t, |t| + 1) - vs.Keys;
    assert r.Keys == vs.Keys + new_;
  }

  // ---------- Runs of insertions ----------

  ghost function Prefixes(t: Tag): set<Tag> {
    Tops(t, |t| + 1)
  }

  /** The values after inserting the pairs of run in order. */
  ghost function AfterRun<T>(vs: map<Tag, T>, run: seq<(Tag, T)>, blank: T): map<Tag, T> {
    if run == [] then vs
    else Inserted(AfterRun(vs, run[..|run| - 1], blank), run[|run| - 1].0, run[|run| - 1].1, blank)
  }

  /** The first insertion that reaches a new tag decides its value for the whole run: its own
      value if it was made for that tag, the default value if for a longer one. */
  lemma {:induction false} FirstReachDecides<T>(vs: map<Tag, T>, run: seq<(Tag, T)>, blank: T, k: Tag, i: nat)
    requires k !in vs && i < |run| && k in Prefixes(run[i].0)
    requires forall j :: 0 <= j < i ==> k !in Prefixes(run[j].0)
    ensures k in AfterRun(vs, run, blank)
    ensures AfterRun(vs, run, blank)[k] == if k == run[i].0 then run[i].1 else blank
  {
    var n := |run| - 1;
    if i < n {
      FirstReachDecides(vs, run[..n], blank, k, i);
    } else {
      NeverReached(vs, run[..n], blank, k);
    }
  }

  lemma {:induction false} NeverReached<T>(vs: map<Tag, T>, run: seq<(Tag, T)>, blank: T, k: Tag)
    requires k !in vs && forall j :: 0 <= j < |run| ==> k !in Prefixes(run[j].0)
    ensures k !in AfterRun(vs, run, blank)
  {
    if run == [] {
    } else {
      NeverReached(vs, run[..|run| - 1], blank, k);
    }
  }

  // ---------- The nodes ----------

  class Node<T(0)> {
    const tag: Tag
    var value: T
    var parent: Node?<T>
    var children: seq<Node<T>>

    /** create_node leaves parent as it finds it. */
    constructor (tag: Tag, value: T)
      ensures this.tag == tag && this.value == value && children == []
    {
      this.tag := tag;
      this.value := value;
      children := [];
    }

    /** Exchanges two neighbours that are the wrong way round. */
    method Swap(it: nat, less: (Tag, Tag) -> bool)
      requires StrictWeak(less) && it + 1 < |children| && less(children[it + 1].tag, children[it].tag)
      modifies this`children
      ensures multiset(children) == multiset(old(children)) && |children| == |old(children)|
      ensures Inversions(less, Tags(children)) == Inversions(less, Tags(old(children))) - 1
    {
      ghost var before := Tags(children);
      assert WeakLaws(less, before[it], before[it + 1], before[it]);
      SwapTakesOne(less, before, it);
      children := Swapped(children, it);
      assert Tags(children) == Swapped(before, it);
    }

    /** No child has been handed back to the allocator, so their tags can be read. */
    ghost predicate AllIn(live: set<Node<T>>)
      reads this
    {
      forall c :: c in children ==> c in live
    }

    lemma SameNodes(before: seq<Node<T>>, live: set<Node<T>>)
      requires multiset(children) == multiset(before) && forall c :: c in before ==> c in live
      ensures AllIn(live)
    {
      forall c | c in children ensures c in live { assert c in multiset(children); }
    }

    /** One pass of sort_children: neighbours the wrong way round change places.  It reads the tags
        of all children, which must be allocated. */
    method Pass(less: (Tag, Tag) -> bool, ghost live: set<Node<T>>) returns (tryagain: bool)
      requires StrictWeak(less) && children != [] && AllIn(live)
      modifies this`children
      ensures multiset(children) == multiset(old(children)) && |children| == |old(children)|
      ensures tryagain ==> Inversions(less, Tags(children)) < Inversions(less, Tags(old(children)))
      ensures !tryagain ==> children == old(children) && Ordered(less, Tags(children))
    {
      tryagain := false;
      var it := 0;
      while it != |children| - 1
        invariant 0 <= it <= |children| - 1 && |children| == |old(children)|
        invariant multiset(children) == multiset(old(children))
        invariant tryagain ==> Inversions(less, Tags(children)) < Inversions(less, Tags(old(children)))
        invariant !tryagain ==> children == old(children)
        invariant !tryagain ==>
          forall k, l :: 0 <= k && l == k + 1 && l <= it ==> !less(Tags(children)[l], Tags(children)[k])
        decreases |children| - it
      {
        if less(children[it + 1].tag, children[it].tag) {
          Swap(it, less);
          tryagain := true;
        }
        it := it + 1;
      }
      if !tryagain {
        forall i, j | 0 <= i < j < |children| ensures !less(Tags(children)[j], Tags(children)[i]) {
          NeighboursDecide(less, Tags(children), i, j);
        }
      }
    }

    /** sort_children(): it ends, with the same children in order. */
    method SortChildren(less: (Tag, Tag) -> bool, ghost live: set<Node<T>>)
      requires StrictWeak(less) && AllIn(live)
      modifies this`children
      ensures multiset(children) == multiset(old(children))
      ensures forall i, j :: 0 <= i < j < |children| ==> !less(children[j].tag, children[i].tag)
    {
      if children == [] { return; }
      var tryagain := true;
      while tryagain
        invariant children != [] && multiset(children) == multiset(old(children))
        invariant !tryagain ==> Ordered(less, Tags(children))
        decreases Inversions(less, Tags(children)) + if tryagain then 1 else 0
      {
        SameNodes(old(children), live);
        tryagain := Pass(less, live);
      }
      forall i, j | 0 <= i < j < |children| ensures !less(children[j].tag, children[i].tag) {
        assert !less(Tags(children)[j], Tags(children)[i]);
      }
    }
  }

  function Tags<T(0)>(ns: seq<Node<T>>): (r: seq<Tag>)
    ensures |r| == |ns|
  {
    seq(|ns|, i requires 0 <= i < |ns| => ns[i].tag)
  }

  ghost predicate Differ<X>(s: seq<X>, i: nat, j: nat)
    requires i < j < |s|
  {
    s[i] != s[j]
  }

  lemma MoreDiffer<X>(s: seq<X>, x: X)
    requires x !in s && forall i, j {:trigger Differ(s, i, j)} :: 0 <= i < j < |s| ==> Differ(s, i, j)
    ensures forall i, j {:trigger Differ(s + [x], i, j)} :: 0 <= i < j < |s| + 1 ==> Differ(s + [x], i, j)
  {
    forall i, j {:trigger Differ(s + [x], i, j)} | 0 <= i < j < |s| + 1 ensures Differ(s + [x], i, j) {
      assert j < |s| ==> Differ(s, i, j);
    }
  }

  /** The first n of different elements are n. */
  lemma {:induction false} DistinctSize<X>(s: seq<X>, n: nat)
    requires n <= |s| && forall i, j :: 0 <= i < j < |s| ==> s[i] != s[j]
    ensures |set i | 0 <= i < n :: s[i]| == n
  {
    var xs := set i | 0 <= i < n :: s[i];
    if n == 0 {
      assert xs == {};
    } else {
      DistinctSize(s, n - 1);
      assert xs == (set i | 0 <= i < n - 1 :: s[i]) + {s[n - 1]};
    }
  }

  /** Another order of different elements. */
  lemma Reordered<X>(s: seq<X>, r: seq<X>)
    requires multiset(r) == multiset(s) && forall i, j :: 0 <= i < j < |s| ==> s[i] != s[j]
    ensures forall x :: x in r <==> x in s
    ensures forall i, j :: 0 <= i < j < |r| ==> r[i] != r[j]
  {
    forall x ensures x in r <==> x in s { assert x in multiset(r) <==> x in multiset(s); }
    forall i, j | 0 <= i < j < |r| ensures r[i] != r[j] {
      if r[i] == r[j] {
        OccursTwice(r, i, j);
        OccursOnce(s, r[i]);
      }
    }
  }

  lemma OccursTwice<X>(s: seq<X>, i: nat, j: nat)
    requires i < j < |s| && s[i] == s[j]
    ensures multiset(s)[s[i]] >= 2
  {
    assert s == s[..i] + [s[i]] + s[i + 1..j] + [s[j]] + s[j + 1..];
  }

  lemma {:induction false} OccursOnce<X>(s: seq<X>, x: X)
    requires forall i, j :: 0 <= i < j < |s| ==> s[i] != s[j]
    ensures multiset(s)[x] <= 1
  {
    if s == [] {
    } else {
      var n := |s| - 1;
      OccursOnce(s[..n], x);
      assert s == s[..n] + [s[n]];
      if s[n] == x {
        assert x !in s[..n];
        assert x !in multiset(s[..n]);
      }
    }
  }

  lemma SubsetIsSmaller<X>(a: set<X>, b: set<X>)
    requires a <= b
    ensures |a| <= |b|
  {
    assert b == a + (b - a);
  }

  lemma ProperSubsetIsSmaller<X>(a: set<X>, b: set<X>)
    requires a < b
    ensures |a| < |b|
  {
    assert b == a + (b - a) && b - a != {};
  }

  /** An insertion of x at target: the nodes and values before it, and whether all children lists were free of
      destroyed nodes. */
  datatype Job<T(0)> = Job(base: map<Tag, Node<T>>, vs: map<Tag, T>, exact: bool, target: Tag, x: T)

  class TagTree<T(0)> {
    var nodeMap: map<Tag, Node<T>>
    const maxDepth: nat
    /** The value T() */
    const blank: T
    /** Nodes the allocator has handed out and not taken back. */
    ghost var heap: set<Node<T>>

    ghost function Values(): map<Tag, T>
      reads this, nodeMap.Values
    {
      map t | t in nodeMap :: nodeMap[t].value
    }

    /** The node of t is on its parent's list of children, and its parent is the node of its ancestor. */
    ghost predicate Linked(t: Tag)
      requires t in nodeMap
      reads this, nodeMap.Values
    {
      && Ancestor(t) in nodeMap
      && nodeMap[t].parent == nodeMap[Ancestor(t)]
      && nodeMap[t] in nodeMap[Ancestor(t)].children
    }

    ghost predicate TagsOk()
      reads this
    {
      && heap == nodeMap.Values
      && forall t :: t in nodeMap ==> nodeMap[t].tag == t && (maxDepth > 0 ==> |t| <= maxDepth)
    }

    ghost predicate IsChild(c: Node<T>, t: Tag)
      reads this
    {
      c.tag in nodeMap && nodeMap[c.tag] == c && c.tag != [] && Ancestor(c.tag) == t
    }

    /** No node is twice on the children list of t's node, and what is on it and allocated is a node
        of the tree with t for its ancestor, and none of gaps.  What is not allocated any more was. */
    ghost predicate SoundAt(t: Tag, gaps: set<Tag>)
      requires t in nodeMap
      reads this, nodeMap.Values
    {
      var cs := nodeMap[t].children;
      && (forall i, j {:trigger Differ(cs, i, j)} :: 0 <= i < j < |cs| ==> Differ(cs, i, j))
      && forall i :: 0 <= i < |cs| && cs[i] in heap ==> IsChild(cs[i], t) && cs[i].tag !in gaps
    }

    /** Apart from the root and the nodes of gaps, each node hangs from the node of its ancestor,
        and no allocated node from any other. */
    ghost predicate LinkedBut(gaps: set<Tag>)
      reads this, nodeMap.Values
    {
      && TagsOk()
      && (forall t {:trigger Linked(t)} :: t in nodeMap && t != [] && t !in gaps ==> Linked(t))
      && forall t {:trigger SoundAt(t, gaps)} :: t in nodeMap ==> SoundAt(t, gaps)
    }

    ghost predicate Valid()
      reads this, nodeMap.Values
    {
      LinkedBut({})
    }

    /** The children list of t's node holds allocated nodes only. */
    ghost predicate LiveAt(t: Tag)
      requires t in nodeMap
      reads this, nodeMap.Values
    {
      nodeMap[t].AllIn(heap)
    }

    /** Nothing but live children is on any list. */
    ghost predicate Exact()
      reads this, nodeMap.Values
    {
      forall t {:trigger LiveAt(t)} :: t in nodeMap ==> LiveAt(t)
    }

    /** The tags right below t. */
    ghost function TagsBelow(t: Tag): set<Tag>
      reads this
    {
      set k | k in nodeMap && k != [] && Ancestor(k) == t
    }

    /** A children list holds allocated nodes only exactly when it is no longer than the tree has
        tags right below: then its tags may be read, as sort_children does. */
    lemma ChildrenAreLiveExactlyWhen(t: Tag)
      requires Valid() && t in nodeMap
      ensures LiveAt(t) <==> |nodeMap[t].children| == |TagsBelow(t)|
      ensures |nodeMap[t].children| >= |TagsBelow(t)|
    {
      var cs, ks := nodeMap[t].children, TagsBelow(t);
      var onList, below := set c | c in cs, set k | k in ks :: nodeMap[k];
      assert SoundAt(t, {});
      forall i, j | 0 <= i < j < |cs| ensures cs[i] != cs[j] { assert Differ(cs, i, j); }
      DistinctSize(cs, |cs|);
      assert onList == set i | 0 <= i < |cs| :: cs[i];
      NodesOf(ks);
      forall k | k in ks ensures nodeMap[k] in onList { assert Linked(k); }
      assert below <= onList;
      if LiveAt(t) {
        forall c | c in onList ensures c in below {
          var i :| 0 <= i < |cs| && cs[i] == c;
          assert IsChild(c, t);
        }
        assert onList == below;
      } else {
        var c :| c in cs && c !in heap;
        forall k | k in ks ensures nodeMap[k] != c { assert nodeMap[k] in nodeMap.Values; }
        assert c in onList && c !in below;
        ProperSubsetIsSmaller(below, onList);
      }
      SubsetIsSmaller(below, onList);
    }

    lemma {:induction false} NodesOf(ks: set<Tag>)
      requires TagsOk() && ks <= nodeMap.Keys
      ensures |set k | k in ks :: nodeMap[k]| == |ks|
    {
      var ns := set k | k in ks :: nodeMap[k];
      if ks == {} {
        assert ns == {};
      } else {
        var k :| k in ks;
        NodesOf(ks - {k});
        var rest := set l | l in ks - {k} :: nodeMap[l];
        forall l | l in ks - {k} ensures nodeMap[l] != nodeMap[k] { assert nodeMap[l].tag == l && nodeMap[k].tag == k; }
        assert ns == rest + {nodeMap[k]};
      }
    }

    lemma ValidIsPrefixClosed()
      requires Valid()
      ensures PrefixClosed(Values())
    {
      forall t | t in Values() ensures Ancestor(t) in Values() {
        if t != [] { assert Linked(t); }
      }
    }

    constructor (maxDepth: nat, blank: T)
      ensures Valid() && Exact() && Values() == map[[] := blank] && this.maxDepth == maxDepth && this.blank == blank
      ensures [] in nodeMap && nodeMap[[]].parent == null && nodeMap[[]].children == [] && fresh(heap)
    {
      this.maxDepth, this.blank := maxDepth, blank;
      var root := new Node([], blank);
      root.parent := null;
      nodeMap := map[[] := root];
      heap := {root};
      new;
      assert nodeMap[[]] in nodeMap.Values;
      assert SoundAt([], {}) && LiveAt([]);
    }

    /** find(t): the node that holds t's value, or null, for end(), when t has none. */
    method Find(t: Tag) returns (r: Node?<T>)
      requires Valid()
      ensures r == null <==> t !in Values()
      ensures r != null ==> InMap(r, t) && r in heap && r.value == Values()[t]
    {
      if t in nodeMap { assert nodeMap[t] in nodeMap.Values; }
      r := if t in nodeMap then nodeMap[t] else null;
    }

    // ---------- insert ----------

    /** The tag that insert works with: the first components of t, as many as a non-zero maxDepth lets. */
    method Truncate(t: Tag) returns (cur: Tag)
      ensures cur <= t && |cur| == if maxDepth == 0 || |t| <= maxDepth then |t| else maxDepth
    {
      cur := t;
      if maxDepth > 0 && |cur| > maxDepth {
        var maxloops := |cur| - maxDepth;
        for ii := 0 to maxloops
          invariant cur == t[..|t| - ii]
        {
          cur := Ancestor(cur);
        }
      }
      assert t[..|t|] == t;
    }

    /** Hangs child from p, as the last on its list, and so closes the gap at child. */
    method Adopt(p: Node<T>, child: Node<T>, ghost gaps: set<Tag>)
      requires LinkedBut(gaps) && child.tag in gaps && child.tag != [] && child.tag in nodeMap
      requires nodeMap[child.tag] == child
      requires Ancestor(child.tag) in nodeMap && nodeMap[Ancestor(child.tag)] == p
      modifies p`children, child`parent
      ensures LinkedBut(gaps - {child.tag}) && (old(Exact()) ==> Exact())
      ensures Values() == old(Values())
      ensures p.children == old(p.children) + [child] && child.parent == p
    {
      child.parent := p;
      p.children := p.children + [child];
      assert Values() == old(Values());
      forall t {:trigger Linked(t)} | t in nodeMap && t != [] && t !in gaps - {child.tag} ensures Linked(t) {
        if t == child.tag {
          assert p.children[|p.children| - 1] == child;
        } else {
          assert old(Linked(t)) && nodeMap[t] != child;
          var cs := old(nodeMap[Ancestor(t)].children);
          var i :| 0 <= i < |cs| && cs[i] == nodeMap[t];
          assert nodeMap[Ancestor(t)].children[i] == nodeMap[t];
        }
      }
      forall t {:trigger SoundAt(t, gaps - {child.tag})} | t in nodeMap ensures SoundAt(t, gaps - {child.tag}) {
        assert old(SoundAt(t, gaps)) && IsChild(child, p.tag);
        if t != p.tag {
          assert nodeMap[t] != p;
        } else {
          MoreDiffer(old(p.children), child);
        }
      }
      forall t {:trigger LiveAt(t)} | t in nodeMap && old(Exact()) ensures LiveAt(t) {
        assert old(LiveAt(t)) && nodeMap[child.tag] in nodeMap.Values;
      }
    }

    /** A node for a tag t that has none goes into the map. */
    method Enter(t: Tag, x: T) returns (n: Node<T>)
      requires TagsOk() && t !in nodeMap && (maxDepth > 0 ==> |t| <= maxDepth)
      modifies this`nodeMap, this`heap
      ensures TagsOk() && Values() == old(Values())[t := x]
      ensures fresh(n) && nodeMap == old(nodeMap)[t := n] && n.tag == t && n.value == x && n.children == []
      ensures heap == old(heap) + {n}
    {
      n := new Node(t, x);
      nodeMap := nodeMap[t := n];
      heap := heap + {n};
      assert t in nodeMap && nodeMap[t] in nodeMap.Values;
      forall m | m in old(nodeMap.Values) ensures m in nodeMap.Values {
        var k :| k in old(nodeMap) && old(nodeMap)[k] == m;
        assert k in nodeMap && nodeMap[k] == m;
      }
    }

    /** A node for a tag t that has none, with a gap at t. */
    method Create(t: Tag, x: T, ghost gaps: set<Tag>) returns (n: Node<T>)
      requires LinkedBut(gaps) && t !in nodeMap && (maxDepth > 0 ==> |t| <= maxDepth)
      modifies this`nodeMap, this`heap
      ensures LinkedBut(gaps + {t}) && (old(Exact()) ==> Exact())
      ensures Values() == old(Values())[t := x]
      ensures fresh(n) && nodeMap == old(nodeMap)[t := n] && n.tag == t && n.value == x && n.children == []
      ensures heap == old(heap) + {n}
    {
      n := Enter(t, x);
      forall k {:trigger Linked(k)} | k in nodeMap && k != [] && k !in gaps + {t} ensures Linked(k) {
        assert old(Linked(k));
      }
      forall k {:trigger SoundAt(k, gaps + {t})} | k in nodeMap ensures SoundAt(k, gaps + {t}) {
        if k != t { assert old(SoundAt(k, gaps)); }
      }
      forall k {:trigger LiveAt(k)} | k in nodeMap && old(Exact()) ensures LiveAt(k) {
        if k != t { assert old(LiveAt(k)); }
      }
    }

    /** The gap that a node without a parent leaves. */
    ghost function Gap(child: Node?<T>): set<Tag> {
      if child == null then {} else {child.tag}
    }

    /** A new node for cur, from which the child that has no parent yet is hung. */
    method Sprout(cur: Tag, x: T, child: Node?<T>) returns (n: Node<T>)
      requires LinkedBut(Gap(child)) && cur !in nodeMap && (maxDepth > 0 ==> |cur| <= maxDepth)
      requires child != null ==>
        && child.tag != [] && child.tag in nodeMap && nodeMap[child.tag] == child && Ancestor(child.tag) == cur
      modifies this`nodeMap, this`heap, (if child == null then {} else {child})`parent
      ensures LinkedBut(Gap(n)) && (old(Exact()) ==> Exact())
      ensures fresh(n) && n.tag == cur && nodeMap == old(nodeMap)[cur := n] && heap == old(heap) + {n}
      ensures Values() == old(Values())[cur := x]
    {
      assert Gap(child) + {cur} - (if child == null then {} else {child.tag}) == {cur};
      assert Gap(child) + {cur} - {} == Gap(child) + {cur};
      n := Create(cur, x, Gap(child));
      if child != null {
        Adopt(n, child, Gap(child) + {cur});
      }
    }

    ghost predicate InMap(n: Node?<T>, t: Tag)
      reads this
    {
      n != null && n.tag == t && t in nodeMap && nodeMap[t] == n
    }

    /** What an insertion starts from. */
    ghost predicate JobOk(job: Job<T>) {
      job.vs.Keys == job.base.Keys && PrefixClosed(job.vs) && (maxDepth > 0 ==> |job.target| <= maxDepth)
    }

    ghost predicate Kept(base: map<Tag, Node<T>>)
      reads this
    {
      forall k :: k in base ==> k in nodeMap && nodeMap[k] == base[k]
    }

    /** The nodes of the ii longest prefixes of the target have been made, the topmost of them,
        child, hangs in the air, and nothing else has changed. */
    ghost predicate Midway(job: Job<T>, ii: nat, child: Node?<T>)
      requires ii <= |job.target| + 1
      reads this, nodeMap.Values
    {
      && LinkedBut(Gap(child)) && (job.exact ==> Exact())
      && Kept(job.base) && Values() == Grown(job.vs, job.target, ii, job.x, blank)
      && if ii == 0 then child == null else InMap(child, job.target[..|job.target| - ii + 1])
    }

    /** What insert returns if the loop stops after ii turns that found nothing. */
    ghost predicate ResultOk(job: Job<T>, ii: nat, result: Node?<T>, inserted: bool)
      reads this
    {
      if ii == 0 then result == null && !inserted
      else InMap(result, job.target) && inserted && job.target !in job.base
    }

    /** What insert leaves and returns. */
    ghost predicate Done(job: Job<T>, result: Node?<T>, inserted: bool)
      reads this, nodeMap.Values
    {
      && Valid() && (job.exact ==> Exact()) && Kept(job.base)
      && Values() == Inserted(job.vs, job.target, job.x, blank)
      && inserted == (job.target !in job.base) && InMap(result, job.target)
    }

    /** Where insert's loop stands before turn ii. */
    ghost predicate Running(job: Job<T>, ii: nat, cur: Tag, child: Node?<T>, result: Node?<T>, inserted: bool)
      reads this, nodeMap.Values
    {
      && ii <= |job.target| + 1 && (ii <= |job.target| ==> cur == job.target[..|job.target| - ii])
      && Midway(job, ii, child) && ResultOk(job, ii, result, inserted)
    }

    /** When every prefix has a node, the root hangs in the air, as it should. */
    lemma Whole(job: Job<T>, cur: Tag, child: Node?<T>, result: Node?<T>, inserted: bool)
      requires Running(job, |job.target| + 1, cur, child, result, inserted)
      ensures Done(job, result, inserted)
    {
      forall t {:trigger SoundAt(t, {})} | t in nodeMap ensures SoundAt(t, {}) { assert SoundAt(t, Gap(child)); }
    }

    /** A node that the loop finds was there before, and so were those of its ancestors. */
    lemma Found(job: Job<T>, ii: nat, child: Node?<T>, cur: Tag)
      requires JobOk(job) && ii <= |job.target| && cur == job.target[..|job.target| - ii] && Midway(job, ii, child)
      ensures if cur in nodeMap
              then Grown(job.vs, job.target, ii, job.x, blank) == Inserted(job.vs, job.target, job.x, blank)
              else cur !in job.vs
      ensures cur in nodeMap <==> cur in job.vs
      ensures child != null ==> child.tag != [] && Ancestor(child.tag) == cur
      ensures cur != job.target <==> ii > 0
    {
      if cur in nodeMap {
        assert cur in Values();
        if cur in Tops(job.target, ii) { TopsAreLonger(job.target, ii, cur); }
        GrownEnough(job.vs, job.target, ii, job.x, blank);
      }
    }

    /** A turn of the loop that finds no node for cur. */
    method Grow(cur: Tag, x: T, child: Node?<T>, ghost job: Job<T>, ghost ii: nat) returns (n: Node<T>)
      requires JobOk(job) && ii <= |job.target| && cur == job.target[..|job.target| - ii] && cur !in nodeMap
      requires Midway(job, ii, child) && x == if ii == 0 then job.x else blank
      modifies this`nodeMap, this`heap, (if child == null then {} else {child})`parent
      ensures Midway(job, ii + 1, n) && fresh(n) && nodeMap == old(nodeMap)[cur := n] && heap == old(heap) + {n}
      ensures cur !in job.base && (ii > 0 ==> cur != job.target)
    {
      Found(job, ii, child, cur);
      GrownStep(job.vs, job.target, ii, job.x, blank);
      n := Sprout(cur, x, child);
    }

    /** The turn of the loop that finds the node p. */
    method Meet(p: Node<T>, child: Node?<T>, ghost job: Job<T>, ghost ii: nat, ghost cur: Tag)
      requires JobOk(job) && ii <= |job.target| && cur == job.target[..|job.target| - ii] && cur in nodeMap
      requires p == nodeMap[cur]
      requires Midway(job, ii, child)
      modifies p`children, (if child == null then {} else {child})`parent
      ensures Valid() && (job.exact ==> Exact()) && Values() == Inserted(job.vs, job.target, job.x, blank)
      ensures ii == 0 ==> cur == job.target && cur in job.base
    {
      Found(job, ii, child, cur);
      if ii == 0 { assert cur == job.target && cur in Values() && cur in job.vs; }
      if child != null {
        assert Gap(child) - {child.tag} == {};
        Adopt(p, child, Gap(child));
      }
    }

    /** The turn of the loop that finds a node for cur, and what it makes of the result. */
    method Close(cur: Tag, child: Node?<T>, result: Node?<T>, inserted: bool, ghost job: Job<T>, ghost ii: nat)
      returns (result': Node<T>)
      requires JobOk(job) && ii <= |job.target| && Running(job, ii, cur, child, result, inserted) && cur in nodeMap
      modifies job.base.Values, (if child == null then {} else {child})`parent
      ensures Done(job, result', inserted)
    {
      Found(job, ii, child, cur);
      assert cur in job.vs && nodeMap[cur] in job.base.Values;
      Meet(nodeMap[cur], child, job, ii, cur);
      result' := if result == null then nodeMap[cur] else result;
    }

    /** One turn of insert's loop; it stops at the first node it finds. */
    method Turn(cur: Tag, x: T, child: Node?<T>, result: Node?<T>, inserted: bool, ghost job: Job<T>, ghost ii: nat)
      returns (found: bool, cur': Tag, child': Node?<T>, result': Node?<T>, inserted': bool)
      requires JobOk(job) && ii <= |job.target| && x == job.x && Running(job, ii, cur, child, result, inserted)
      modifies this`nodeMap, this`heap, job.base.Values, (if child == null then {} else {child})`parent
      ensures if found || ii == |job.target|
              then Done(job, result', inserted')
              else Running(job, ii + 1, cur', child', result', inserted')
      ensures if found then heap == old(heap) else child' != null && fresh(child') && heap == old(heap) + {child'}
    {
      found, cur', child', result', inserted' := cur in nodeMap, cur, child, result, inserted;
      if found {
        result' := Close(cur, child, result, inserted, job, ii);
      } else {
        child' := Grow(cur, if result' == null then x else blank, child, job, ii);
        if result' == null { result' := child'; inserted' := true; }
        AncestorOfPrefix(job.target, ii);
        cur' := Ancestor(cur);
        if ii == |job.target| { Whole(job, cur', child', result', inserted'); }
      }
    }

    /** insert's loop, from the tag that Truncate gives up to the first ancestor that has a node. */
    method Climb(tag: Tag, x: T, ghost job: Job<T>) returns (result: Node?<T>, inserted: bool)
      requires JobOk(job) && tag == job.target && x == job.x && Running(job, 0, tag, null, null, false)
      modifies this`nodeMap, this`heap, job.base.Values
      ensures Done(job, result, inserted) && fresh(heap - old(heap))
    {
      var cur := tag;
      var child: Node?<T> := null;
      result, inserted := null, false;
      ghost var known := heap;
      var maxloops := |cur| + 1;
      for ii := 0 to maxloops
        invariant maxloops == |job.target| + 1
        invariant if ii < maxloops then Running(job, ii, cur, child, result, inserted) else Done(job, result, inserted)
        invariant (child != null ==> fresh(child)) && fresh(heap - known)
      {
        var found;
        found, cur, child, result, inserted := Turn(cur, x, child, result, inserted, job, ii);
        if found { return; }
      }
    }

    /** insert(t, x): the node of t's first components, as many as a non-zero maxDepth lets, and
        whether it is new. */
    method Insert(t: Tag, x: T) returns (node: Node<T>, inserted: bool)
      requires Valid()
      modifies this`nodeMap, this`heap, nodeMap.Values
      ensures Valid() && (old(Exact()) ==> Exact())
      ensures node.tag <= t && |node.tag| == if maxDepth == 0 || |t| <= maxDepth then |t| else maxDepth
      ensures InMap(node, node.tag) && inserted == (node.tag !in old(nodeMap))
      ensures Values() == Inserted(old(Values()), node.tag, x, blank)
      ensures Kept(old(nodeMap)) && fresh(heap - old(heap))
    {
      var cur := Truncate(t);
      assert Values() == old(Values());
      ValidIsPrefixClosed();
      GrownStart(Values(), cur, x, blank);
      node, inserted := Climb(cur, x, Job(nodeMap, Values(), Exact(), cur, x));
    }

    /** operator[](t): the node whose value it refers to; a new one gets the default value. */
    method Index(t: Tag) returns (node: Node<T>)
      requires Valid()
      modifies this`nodeMap, this`heap, nodeMap.Values
      ensures Valid() && (old(Exact()) ==> Exact())
      ensures node.tag <= t && |node.tag| == if maxDepth == 0 || |t| <= maxDepth then |t| else maxDepth
      ensures InMap(node, node.tag) && Values() == Inserted(old(Values()), node.tag, blank, blank)
      ensures Kept(old(nodeMap)) && fresh(heap - old(heap))
    {
      var inserted;
      node, inserted := Insert(t, blank);
    }

    // ---------- sort_children ----------

    /** n->sort_children() for a node of the tree whose list holds allocated nodes only: the tree
        stays as it is but for the order of that list. */
    method Sort(n: Node<T>, less: (Tag, Tag) -> bool)
      requires Valid() && InMap(n, n.tag) && LiveAt(n.tag) && StrictWeak(less)
      modifies n`children
      ensures Valid() && LiveAt(n.tag) && (old(Exact()) ==> Exact()) && Values() == old(Values())
      ensures multiset(n.children) == multiset(old(n.children))
      ensures forall i, j :: 0 <= i < j < |n.children| ==> !less(n.children[j].tag, n.children[i].tag)
    {
      assert n in nodeMap.Values && SoundAt(n.tag, {});
      ghost var cs := n.children;
      forall i, j | 0 <= i < j < |cs| ensures cs[i] != cs[j] { assert Differ(cs, i, j); }
      n.SortChildren(less, heap);
      n.SameNodes(old(n.children), heap);
      Reordered(old(n.children), n.children);
      forall t {:trigger Linked(t)} | t in nodeMap && t != [] ensures Linked(t) {
        assert old(Linked(t));
        if nodeMap[Ancestor(t)] == n { assert nodeMap[t] in multiset(old(n.children)); }
      }
      forall t {:trigger SoundAt(t, {})} | t in nodeMap ensures SoundAt(t, {}) {
        assert old(SoundAt(t, {}));
        if nodeMap[t] == n {
          forall i | 0 <= i < |n.children| ensures IsChild(n.children[i], t) {
            assert n.children[i] in old(n.children);
          }
          ghost var sorted := n.children;
          assert forall i, j {:trigger Differ(sorted, i, j)} :: 0 <= i < j < |sorted| ==> Differ(sorted, i, j);
        }
      }
      forall t {:trigger LiveAt(t)} | t in nodeMap && old(Exact()) ensures LiveAt(t) { assert old(LiveAt(t)); }
    }

    // ---------- erase ----------

    /** A node without children can go: nothing in the tree hangs from it. */
    lemma NothingBelow(t: Tag)
      requires Valid() && t in nodeMap && nodeMap[t].children == []
      ensures forall k :: k in nodeMap && k != [] ==> Ancestor(k) != t
    {
      forall k | k in nodeMap && k != [] ensures Ancestor(k) != t { assert Linked(k); }
    }

    /** destroy_node(x). */
    method DestroyNode(x: Node<T>)
      requires x in heap
      modifies this`heap, x
      ensures heap == old(heap) - {x}
    {
      heap := heap - {x};
    }

    method Reset(position: Node<T>)
      requires Valid() && InMap(position, position.tag)
      modifies position`value
      ensures Valid() && (old(Exact()) ==> Exact()) && Values() == old(Values())[position.tag := blank]
    {
      position.value := blank;
      forall t {:trigger Linked(t)} | t in nodeMap && t != [] ensures Linked(t) { assert old(Linked(t)); }
      forall t {:trigger SoundAt(t, {})} | t in nodeMap ensures SoundAt(t, {}) { assert old(SoundAt(t, {})); }
      forall t {:trigger LiveAt(t)} | t in nodeMap && old(Exact()) ensures LiveAt(t) { assert old(LiveAt(t)); }
    }

    /** Takes a node out of the map and hands it back; no other node changes. */
    method Unlist(position: Node<T>)
      requires TagsOk() && InMap(position, position.tag)
      modifies this`nodeMap, this`heap, position
      ensures TagsOk() && nodeMap == old(nodeMap) - {position.tag} && heap == old(heap) - {position}
      ensures forall k :: k in nodeMap ==> unchanged(nodeMap[k])
    {
      Remaining(nodeMap, position.tag);
      assert position in nodeMap.Values;
      DestroyNode(position);
      nodeMap := nodeMap - {position.tag};
    }

    /** Which lists hold allocated nodes only before and after a node that is on one has gone. */
    lemma ListsWithout(position: Node<T>, k: Tag)
      requires Valid() && InMap(position, position.tag) && k in nodeMap
      ensures position in nodeMap[k].children <==> position.tag != [] && k == Ancestor(position.tag)
    {
      assert SoundAt(k, {}) && (position.tag != [] ==> Linked(position.tag)) && position in nodeMap.Values;
    }

    method Remove(position: Node<T>)
      requires Valid() && InMap(position, position.tag) && position.children == []
      modifies this`nodeMap, this`heap, position
      ensures Valid() && nodeMap == old(nodeMap) - {position.tag} && Values() == old(Values()) - {position.tag}
      ensures forall k {:trigger LiveAt(k)} :: k in nodeMap ==>
                (LiveAt(k) <==> old(LiveAt(k)) && (position.tag == [] || k != Ancestor(position.tag)))
    {
      NothingBelow(position.tag);
      forall k | k in nodeMap
        ensures position in nodeMap[k].children <==> position.tag != [] && k == Ancestor(position.tag)
      {
        ListsWithout(position, k);
      }
      Unlist(position);
      forall t {:trigger Linked(t)} | t in nodeMap && t != [] ensures Linked(t) { assert old(Linked(t)); }
      forall t {:trigger SoundAt(t, {})} | t in nodeMap ensures SoundAt(t, {}) { assert old(SoundAt(t, {})); }
    }

    /** erase(position): a node with an entry on its children list only loses its value; any other
        goes, and leaves an entry for a destroyed node on its parent's list, and on no other. */
    method Erase(position: Node<T>)
      requires Valid() && InMap(position, position.tag)
      modifies this`nodeMap, this`heap, position
      ensures Valid()
      ensures if old(position.children) != []
              then nodeMap == old(nodeMap) && Values() == old(Values())[position.tag := blank]
              else nodeMap == old(nodeMap) - {position.tag} && Values() == old(Values()) - {position.tag}
      ensures forall k {:trigger LiveAt(k)} :: k in nodeMap ==>
                (LiveAt(k) <==>
                 && old(LiveAt(k))
                 && (old(position.children) != [] || position.tag == [] || k != Ancestor(position.tag)))
      ensures forall k :: k in nodeMap ==> nodeMap[k].children == old(nodeMap[k].children)
    {
      if position.children != [] {
        Reset(position);
        return;
      }
      Remove(position);
    }

    lemma Remaining(m: map<Tag, Node<T>>, t: Tag)
      requires t in m && forall k :: k in m ==> m[k].tag == k
      ensures (m - {t}).Values == m.Values - {m[t]}
    {
      forall n | n in m.Values - {m[t]} ensures n in (m - {t}).Values {
        var k :| k in m && m[k] == n;
        assert k in m - {t} && (m - {t})[k] == n;
      }
    }

    /** erase(t): 1 if t had a node, whether or not the node went. */
    method EraseTag(t: Tag) returns (n: nat)
      requires Valid()
      modifies this`nodeMap, this`heap, nodeMap.Values
      ensures Valid() && n == if t in old(nodeMap) then 1 else 0
      ensures if t in old(nodeMap) && old(nodeMap[t].children == [])
              then nodeMap == old(nodeMap) - {t}
              else nodeMap == old(nodeMap)
      ensures Values() == if t !in old(nodeMap) then old(Values())
                          else if old(nodeMap[t].children == []) then old(Values()) - {t}
                          else old(Values())[t := blank]
      ensures forall k {:trigger LiveAt(k)} :: k in nodeMap ==>
                (LiveAt(k) <==> old(LiveAt(k)) && (nodeMap == old(nodeMap) || t == [] || k != Ancestor(t)))
      ensures n == |old(nodeMap)| - |nodeMap| <==> t !in old(nodeMap) || old(nodeMap[t].children == [])
      ensures forall k :: k in nodeMap ==> nodeMap[k].children == old(nodeMap[k].children)
    {
      var it := Find(t);
      if it != null {
        assert it in nodeMap.Values;
        ghost var before := nodeMap;
        Erase(it);
        n := 1;
        if nodeMap != before { assert before.Keys == nodeMap.Keys + {t}; }
      } else {
        n := 0;
      }
    }
  }

  /** The documented count of erase does not hold: a leaf stays on its parent's list when it is
      erased, so the parent, though nothing is left below it, is kept and reported as erased. */
  method ErasedLeafStillCounts<T(0)>(x: T, blank: T) returns (reported: nat, erased: nat)
    ensures reported == 1 && erased == 0
  {
    var tree := new TagTree<T>(0, blank);
    var node, inserted := tree.Insert(["a"], x);
    assert node.tag == ["a"];
    assert Ancestor(["a"]) == [] && tree.Linked(["a"]);
    var first := tree.EraseTag(["a"]);
    var size := |tree.nodeMap|;
    reported := tree.EraseTag([]);
    erased := size - |tree.nodeMap|;
  }

  /** After erasing one of two leaves the root's list still holds the destroyed node, whose tag
      sort_children would read. */
  method ErasedLeafStaysListed<T(0)>(x: T, blank: T) returns (tree: TagTree<T>, root: Node<T>, a: Node<T>)
    ensures tree.Valid() && tree.InMap(root, []) && a in root.children && a !in tree.heap
    ensures !tree.LiveAt([])
  {
    tree := new TagTree<T>(1, blank);
    var inserted, b;
    a, inserted := tree.Insert(["a"], x);
    assert a.tag == ["a"];
    b, inserted := tree.Insert(["b"], x);
    assert b.tag == ["b"];
    root := tree.nodeMap[[]];
    assert tree.Linked(["a"]) && Ancestor(["a"]) == [] && tree.TagsBelow(["a"]) == {} && tree.LiveAt(["a"]);
    tree.ChildrenAreLiveExactlyWhen(["a"]);
    var count := tree.EraseTag(["a"]);
  }

  /** A tag that is too deep: the value goes to its first component. */
  method TooDeep<T(0)>(x: T, blank: T) returns (node: Node<T>)
    ensures node.tag == ["a"] && node.value == x
  {
    var tree := new TagTree<T>(1, blank);
    var inserted;
    node, inserted := tree.Insert(["a", "b"], x);
    assert node.tag == ["a", "b"][..1] == ["a"];
    InsertedIs(map[[] := blank], node.tag, x, blank, ["a"]);
    assert tree.Values()[["a"]] == x;
  }
}
