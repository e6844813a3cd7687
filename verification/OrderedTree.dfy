/** Oscl_Rb_Tree (oscl_tree.h): the sorted container under Oscl_Map. */
module OrderedTree {
  import opened Layout
  import opened Orders
  import opened TreeNodes

  class RbTree<K(!new), V(0)> {
    const less: (K, K) -> bool
    const keyOf: V -> K
    const header: Node<V>
    var nodeCount: nat
    ghost var view: View<V>
    /** Nodes the allocator has handed out and not taken back. */
    ghost var heap: set<Node<V>>

    /** The pointers spell out view.nodes; the order of the keys is not looked at. */
    ghost predicate Shaped()
      reads this, header, view.nodes
    {
      && view.header == header && view.Tree() && view.Headed()
      && (view.nodes != [] ==> view.At(view.root).color == Black)
      && nodeCount == |view.nodes|
      && heap == Members(view.nodes) + {header}
    }

    ghost function Keys(): (ks: seq<K>)
      reads this, view.nodes
      ensures |ks| == |view.nodes|
    {
      Orders.Keys(keyOf, view.Values())
    }

    ghost predicate Valid()
      reads this, header, view.nodes
    {
      Shaped() && StrictWeak(less) && Sorted(less, Keys())
    }

    /** Iteration is in strictly ascending order of the keys. */
    lemma KeysAscend(i: nat, j: nat)
      requires Valid() && i < j < |view.nodes|
      ensures less(keyOf(view.nodes[i].value), keyOf(view.nodes[j].value))
    {
      assert less(Keys()[i], Keys()[j]);
    }

    constructor (less: (K, K) -> bool, keyOf: V -> K)
      requires StrictWeak(less)
      ensures Valid() && view.nodes == [] && fresh(header)
      ensures this.less == less && this.keyOf == keyOf
    {
      this.less, this.keyOf := less, keyOf;
      nodeCount := 0;
      var h := new Node();
      header := h;
      view := View(h, [], [], NONE);
      heap := {h};
      new;
      header.color := Red;
      header.left := header;
      header.right := header;
      header.parent := null;
    }

    /** lower_bound(k): the first node not less than k, or end(). */
    method LowerBound(k: K) returns (y: Node<V>)
      requires Valid()
      ensures y == view.At(Orders.LowerBound(less, Keys(), k))
    {
      ghost var ks := Keys();
      y := header;
      var x := header.parent;
      ghost var a, b, j := 0, |ks|, view.root;
      while x != null
        invariant 0 <= a <= b <= |ks| && y == view.At(b)
        invariant if x == null
                  then a == b
                  else 0 <= j < |ks| && x == view.nodes[j] && view.cells[j].lo == a && view.cells[j].hi == b
        invariant forall q :: 0 <= q < a ==> less(ks[q], k)
        invariant b < |ks| ==> !less(ks[b], k)
        decreases b - a
      {
        assert CellOk(view.cells, view.root, j) && view.Linked(j);
        assert ks[j] == keyOf(x.value);
        if !less(keyOf(x.value), k) {
          y, b := x, j;
          x, j := x.left, view.cells[j].left;
        } else {
          forall q | 0 <= q < j ensures less(ks[q], k) { assert WeakLaws(less, ks[q], ks[j], k); }
          a := j + 1;
          x, j := x.right, view.cells[j].right;
        }
        if x != null { assert CellOk(view.cells, view.root, j); }
      }
      LowerBoundIs(less, ks, k, b);
    }

    /** upper_bound(k): the first node greater than k, or end(). */
    method UpperBound(k: K) returns (y: Node<V>)
      requires Valid()
      ensures y == view.At(Orders.UpperBound(less, Keys(), k))
    {
      ghost var ks := Keys();
      y := header;
      var x := header.parent;
      ghost var a, b, j := 0, |ks|, view.root;
      while x != null
        invariant 0 <= a <= b <= |ks| && y == view.At(b)
        invariant if x == null
                  then a == b
                  else 0 <= j < |ks| && x == view.nodes[j] && view.cells[j].lo == a && view.cells[j].hi == b
        invariant forall q :: 0 <= q < a ==> !less(k, ks[q])
        invariant b < |ks| ==> less(k, ks[b])
        decreases b - a
      {
        assert CellOk(view.cells, view.root, j) && view.Linked(j);
        assert ks[j] == keyOf(x.value);
        if less(k, keyOf(x.value)) {
          y, b := x, j;
          x, j := x.left, view.cells[j].left;
        } else {
          forall q | 0 <= q < j ensures !less(k, ks[q]) {
            assert WeakLaws(less, k, ks[j], ks[q]) && WeakLaws(less, ks[q], ks[j], ks[q]);
          }
          a := j + 1;
          x, j := x.right, view.cells[j].right;
        }
        if x != null { assert CellOk(view.cells, view.root, j); }
      }
      UpperBoundIs(less, ks, k, b);
    }

    /** find(k): the node whose key is equivalent to k, or end(). */
    method Find(k: K) returns (r: Node<V>)
      requires Valid()
      ensures r == view.At(Orders.Find(less, Keys(), k))
      ensures r != header ==> r in view.nodes && !less(keyOf(r.value), k) && !less(k, keyOf(r.value))
      ensures r == header ==> forall i :: 0 <= i < |view.nodes| ==>
                less(keyOf(view.nodes[i].value), k) || less(k, keyOf(view.nodes[i].value))
    {
      ghost var ks := Keys();
      FindFinds(less, ks, k);
      forall i | 0 <= i < |ks| && Orders.Find(less, ks, k) == |ks|
        ensures less(keyOf(view.nodes[i].value), k) || less(k, keyOf(view.nodes[i].value))
      {
        assert ks[i] == keyOf(view.nodes[i].value);
      }
      LookupAgrees(less, Keys(), k);
      var j := LowerBound(k);
      r := if j == header || less(k, keyOf(j.value)) then header else j;
    }

    /** distance(first, last): the steps of ++ from first to last. */
    method Distance(first: Node<V>, last: Node<V>, ghost i: nat, ghost j: nat) returns (n: nat)
      requires Shaped() && i <= j <= |view.nodes| && first == view.At(i) && last == view.At(j)
      ensures n == j - i
    {
      n := 0;
      var it := first;
      while it != last
        invariant i + n <= j && it == view.At(i + n)
        decreases j - i - n
      {
        it := Next(it, view, i + n);
        n := n + 1;
      }
    }

    /** count(k): the length of the equal range. */
    method Count(k: K) returns (n: nat)
      requires Valid()
      ensures n == Orders.Count(less, Keys(), k)
      ensures n == if Orders.Find(less, Keys(), k) < |view.nodes| then 1 else 0
    {
      LookupAgrees(less, Keys(), k);
      SortedUpperBound(less, Keys(), k);
      var first := LowerBound(k);
      var last := UpperBound(k);
      n := Distance(first, last, Orders.LowerBound(less, Keys(), k), Orders.UpperBound(less, Keys(), k));
    }

    // ---------- Insertion ----------

    /** The descent of insert_unique: the node y a new leaf with key k hangs from, and its side. */
    method Descend(k: K) returns (y: Node<V>, comp: bool, ghost u: nat)
      requires Valid()
      ensures u <= |view.nodes|
      ensures forall q :: 0 <= q < u ==> !less(k, Keys()[q])
      ensures forall q :: u <= q < |view.nodes| ==> less(k, Keys()[q])
      ensures view.nodes == [] ==> y == header && comp
      ensures view.nodes != [] && comp ==> u < |view.nodes| && y == view.nodes[u] && view.cells[u].left == NONE
      ensures view.nodes != [] && !comp ==> u > 0 && y == view.nodes[u - 1] && view.cells[u - 1].right == NONE
    {
      ghost var ks, c := Keys(), view.cells;
      y := header;
      var x := header.parent;
      comp := true;
      ghost var a, b, j := 0, |ks|, view.root;
      while x != null
        invariant 0 <= a <= b <= |ks|
        invariant x != null ==> 0 <= j < |ks| && x == view.nodes[j] && c[j].lo == a && c[j].hi == b
        invariant x == null ==> a == b && if ks == [] then y == header && comp
                                          else if comp then b < |ks| && y == view.nodes[b] && c[b].left == NONE
                                          else a > 0 && y == view.nodes[a - 1] && c[a - 1].right == NONE
        invariant forall q :: 0 <= q < a ==> !less(k, ks[q])
        invariant forall q :: b <= q < |ks| ==> less(k, ks[q])
        decreases b - a
      {
        assert CellOk(c, view.root, j) && view.Linked(j);
        assert ks[j] == keyOf(x.value);
        y := x;
        comp := less(k, keyOf(x.value));
        if comp {
          forall q | j <= q < |ks| ensures less(k, ks[q]) { assert WeakLaws(less, k, ks[j], ks[q]); }
          b := j;
          x, j := x.left, c[j].left;
        } else {
          forall q | 0 <= q <= j ensures !less(k, ks[q]) {
            assert WeakLaws(less, k, ks[j], ks[q]) && WeakLaws(less, ks[q], ks[j], ks[q]);
          }
          a := j + 1;
          x, j := x.right, c[j].right;
        }
        if x != null { assert CellOk(c, view.root, j); }
      }
      u := a;
    }

    /** create_node(v): fresh storage holding v; its links and colour are whatever they are. */
    method CreateNode(v: V) returns (z: Node<V>)
      modifies this`heap
      ensures fresh(z) && z.value == v && heap == old(heap) + {z}
    {
      z := new Node();
      z.value := v;
      heap := heap + {z};
    }

    /** The first node of an empty tree. */
    method LinkFirst(z: Node<V>)
      requires view.header == header && view.Tree() && view.Headed() && view.nodes == [] && z != header
      modifies header`left, header`parent, header`right, z`parent, z`left, z`right, this`view
      ensures view == View(header, [z], [Cell(0, 1, NONE, NONE, NONE)], 0) && view.Tree() && view.Headed()
    {
      header.left := z;
      header.parent := z;
      header.right := z;
      z.parent := header;
      z.left := null;
      z.right := null;
      view := View(header, [z], [Cell(0, 1, NONE, NONE, NONE)], 0);
      assert CellOk(view.cells, 0, 0) && view.Linked(0);
    }

    /** The assignments that hang z to the left of y, keeping header.left at that end of the tree. */
    method SetLeftLeaf(y: Node<V>, z: Node<V>)
      requires y != header && z != header && y != z
      modifies header`left, y`left, z`parent, z`left, z`right
      ensures y.left == z && header.left == if y == old(header.left) then z else old(header.left)
      ensures z.parent == y && z.left == null && z.right == null
    {
      y.left := z;
      if y == header.left { header.left := z; }
      z.parent := y;
      z.left := null;
      z.right := null;
    }

    /** z becomes the left child of y, the node at position k, which has none. */
    method LinkLeft(y: Node<V>, z: Node<V>, ghost k: nat)
      requires view.Tree() && view.Headed() && view.header == header && z != header && z !in view.nodes
      requires k < |view.nodes| && y == view.nodes[k] && view.cells[k].left == NONE
      modifies header`left, y`left, z`parent, z`left, z`right, this`view
      ensures view == old(view).WithLeft(k, z) && view.Tree() && view.Headed()
    {
      assert view.Linked(k);
      assert y == header.left <==> k == 0;
      SetLeftLeaf(y, z);
      forall q | 0 <= q < |view.nodes| && q != k ensures view.Linked(q) { assert old(view.Linked(q)); }
      LeftLeafLinked(view, k, z);
      LeafHeaded(view, k, z, view.WithLeft(k, z));
      view := view.WithLeft(k, z);
    }

    /** The assignments that hang z to the right of y, keeping header.right at that end of the tree. */
    method SetRightLeaf(y: Node<V>, z: Node<V>)
      requires y != header && z != header && y != z
      modifies header`right, y`right, z`parent, z`left, z`right
      ensures y.right == z && header.right == if y == old(header.right) then z else old(header.right)
      ensures z.parent == y && z.left == null && z.right == null
    {
      y.right := z;
      if y == header.right { header.right := z; }
      z.parent := y;
      z.left := null;
      z.right := null;
    }

    /** z becomes the right child of y, the node at position k - 1, which has none. */
    method LinkRight(y: Node<V>, z: Node<V>, ghost k: nat)
      requires view.Tree() && view.Headed() && view.header == header && z != header && z !in view.nodes
      requires 0 < k <= |view.nodes| && y == view.nodes[k - 1] && view.cells[k - 1].right == NONE
      modifies header`right, y`right, z`parent, z`left, z`right, this`view
      ensures view == old(view).WithRight(k, z) && view.Tree() && view.Headed()
    {
      assert view.Linked(k - 1);
      assert y == header.right <==> k == |view.nodes|;
      SetRightLeaf(y, z);
      forall q | 0 <= q < |view.nodes| && q != k - 1 ensures view.Linked(q) { assert old(view.Linked(q)); }
      RightLeafLinked(view, k, z);
      LeafHeaded(view, k, z, view.WithRight(k, z));
      view := view.WithRight(k, z);
    }

    /** Position k is where v belongs, and it is a new key there. */
    ghost predicate Belongs(v: V, k: nat)
      reads this, view.nodes
    {
      && k == Orders.LowerBound(less, Keys(), keyOf(v))
      && (k < |view.nodes| ==> less(keyOf(v), Keys()[k]))
    }

    /** Hangs the created node z from y. */
    method Hang(onLeft: bool, y: Node<V>, z: Node<V>, ghost k: nat)
      requires view.header == header && view.Tree() && view.Headed() && z != header && z !in view.nodes
      requires y == header <==> view.nodes == []
      requires k <= |view.nodes| && (y == header ==> onLeft)
      requires y != header && onLeft ==> k < |view.nodes| && y == view.nodes[k] && view.cells[k].left == NONE
      requires y != header && !onLeft ==> k > 0 && y == view.nodes[k - 1] && view.cells[k - 1].right == NONE
      modifies this`view, header`left, header`right, header`parent
      modifies view.nodes`left, view.nodes`right, z`left, z`right, z`parent
      ensures view.header == header && view.Tree() && view.Headed()
      ensures view.nodes == old(view.nodes)[..k] + [z] + old(view.nodes)[k..]
      ensures forall q :: 0 <= q < |view.nodes| ==> view.nodes[q] == z || view.nodes[q] in old(view.nodes)
    {
      if y == header {
        LinkFirst(z);
      } else if onLeft {
        LinkLeft(y, z, k);
      } else {
        LinkRight(y, z, k);
      }
    }

    /** Hangs the created node z from y, then rebalances. */
    method Attach(onLeft: bool, y: Node<V>, z: Node<V>, plan: seq<Fix>, ghost k: nat)
      requires view.header == header && view.Tree() && view.Headed() && z != header && z !in view.nodes
      requires y == header <==> view.nodes == []
      requires k <= |view.nodes| && (y == header ==> onLeft)
      requires y != header && onLeft ==> k < |view.nodes| && y == view.nodes[k] && view.cells[k].left == NONE
      requires y != header && !onLeft ==> k > 0 && y == view.nodes[k - 1] && view.cells[k - 1].right == NONE
      modifies this`view, header`left, header`right, header`parent
      modifies view.nodes`left, view.nodes`right, view.nodes`parent, view.nodes`color
      modifies z`left, z`right, z`parent, z`color
      ensures view.header == header && view.Tree() && view.Headed() && view.At(view.root).color == Black
      ensures view.nodes == old(view.nodes)[..k] + [z] + old(view.nodes)[k..]
    {
      Hang(onLeft, y, z, k);
      ghost var t := Rebalance(header, plan, view);
      view := t;
    }

    /** Creates, hangs and counts a node for v at position k. */
    method InsertNode(onLeft: bool, y: Node<V>, v: V, plan: seq<Fix>, ghost k: nat) returns (z: Node<V>)
      requires Shaped()
      requires y == header <==> view.nodes == []
      requires k <= |view.nodes| && (y == header ==> onLeft)
      requires y != header && onLeft ==> k < |view.nodes| && y == view.nodes[k] && view.cells[k].left == NONE
      requires y != header && !onLeft ==> k > 0 && y == view.nodes[k - 1] && view.cells[k - 1].right == NONE
      modifies this, header, view.nodes
      ensures Shaped() && fresh(z) && z.value == v
      ensures view.nodes == old(view.nodes)[..k] + [z] + old(view.nodes)[k..]
      ensures view.Values() == old(view.Values())[..k] + [v] + old(view.Values())[k..]
    {
      ghost var ns, vs := view.nodes, view.Values();
      z := CreateNode(v);
      Attach(onLeft, y, z, plan, k);
      SplicedValues(view, ns, vs, k, z);
      nodeCount := nodeCount + 1;
    }

    /** insert(x, y, v): a new node for v hangs from y, on the left when y is the header, x is
        not null or v comes before y. */
    method Insert(x: Node?<V>, y: Node<V>, v: V, plan: seq<Fix>, ghost k: nat) returns (z: Node<V>)
      requires Valid() && Belongs(v, k)
      requires y == header <==> view.nodes == []
      requires y != header ==>
                 || (k < |view.nodes| && y == view.nodes[k] && view.cells[k].left == NONE)
                 || (k > 0 && x == null && y == view.nodes[k - 1] && view.cells[k - 1].right == NONE)
      modifies this, header, view.nodes
      ensures Valid() && fresh(z) && z.value == v
      ensures view.nodes == old(view.nodes)[..k] + [z] + old(view.nodes)[k..]
      ensures view.Values() == SortedInsert(less, keyOf, old(view.Values()), v)
      ensures Holds(z, v, k)
    {
      SortedInsertIsSorted(less, keyOf, view.Values(), v);
      assert WeakLaws(less, keyOf(v), keyOf(v), keyOf(v));
      BelongsBetween(v, k);
      z := InsertNode(y == header || x != null || less(keyOf(v), keyOf(y.value)), y, v, plan, k);
    }

    lemma BelongsBetween(v: V, k: nat)
      requires Valid() && Belongs(v, k)
      ensures k < |view.nodes| ==> less(keyOf(v), keyOf(view.nodes[k].value))
      ensures 0 < k <= |view.nodes| ==> !less(keyOf(v), keyOf(view.nodes[k - 1].value))
    {
      LowerBoundSplits(less, Keys(), keyOf(v));
      if k > 0 { assert WeakLaws(less, keyOf(v), Keys()[k - 1], keyOf(v)); }
    }

    /** At the split between keys not greater and keys greater than v's, the key below decides. */
    lemma SplitDecides(v: V, u: nat)
      requires Valid() && u <= |view.nodes|
      requires forall q :: 0 <= q < u ==> !less(keyOf(v), Keys()[q])
      requires forall q :: u <= q < |view.nodes| ==> less(keyOf(v), Keys()[q])
      ensures if u == 0 || less(keyOf(view.nodes[u - 1].value), keyOf(v))
              then Belongs(v, u)
              else SortedInsert(less, keyOf, view.Values(), v) == view.Values() && Holds(view.nodes[u - 1], v, u - 1)
    {
      PredecessorDecides(less, Keys(), keyOf(v), u);
    }

    /** j is the node at position i, and holds a key equivalent to v's. */
    ghost predicate Holds(j: Node<V>, v: V, i: nat)
      reads this, view.nodes
    {
      i < |view.nodes| && j == view.nodes[i] && Equivalent(less, keyOf(j.value), keyOf(v))
    }

    /** insert_unique(v): j is the node holding v's key, at position i. */
    method InsertUnique(v: V, plan: seq<Fix>) returns (j: Node<V>, inserted: bool, ghost i: nat)
      requires Valid()
      modifies this, header, view.nodes
      ensures Valid() && Holds(j, v, i)
      ensures view.Values() == SortedInsert(less, keyOf, old(view.Values()), v)
      ensures inserted ==> fresh(j) && j.value == v && i <= |old(view.nodes)|
      ensures inserted ==> view.nodes == old(view.nodes)[..i] + [j] + old(view.nodes)[i..]
      ensures !inserted ==> view == old(view) && unchanged(this, header) && forall n :: n in view.nodes ==> unchanged(n)
    {
      var y, comp;
      ghost var u;
      y, comp, u := Descend(keyOf(v));
      assert view.Values() == old(view.Values());
      SplitDecides(v, u);
      j, inserted, i := y, false, u;
      if comp {
        if j == header.left {
          j := Insert(null, y, v, plan, u);
          return j, true, u;
        }
        j := Prev(j, view, u);
      }
      assert view.Values() == old(view.Values());
      if less(keyOf(j.value), keyOf(v)) {
        j := Insert(null, y, v, plan, u);
        inserted := true;
      } else {
        i := u - 1;
      }
    }

    /** insert_unique(position, v): tries next to the position, else inserts plainly. */
    method InsertUniqueHint(position: Node<V>, v: V, plan: seq<Fix>, ghost p: nat) returns (j: Node<V>, ghost i: nat)
      requires Valid() && p <= |view.nodes| && position == view.At(p)
      modifies this, header, view.nodes
      ensures Valid() && Holds(j, v, i)
      ensures view.Values() == SortedInsert(less, keyOf, old(view.Values()), v)
      ensures fresh(j) ==>
        && j.value == v && i <= |old(view.nodes)| && view.nodes == old(view.nodes)[..i] + [j] + old(view.nodes)[i..]
      ensures !fresh(j) ==> view == old(view) && unchanged(this, header) && forall n :: n in view.nodes ==> unchanged(n)
    {
      i := p;
      if position == header.left {
        if nodeCount > 0 && less(keyOf(v), keyOf(position.value)) {
          FitsBetween(v, 0);
          i := 0;
          j := Insert(position, position, v, plan, 0);
          return;
        }
      } else if position == header {
        if less(keyOf(header.right.value), keyOf(v)) {
          FitsBetween(v, p);
          j := Insert(null, header.right, v, plan, p);
          return;
        }
      } else {
        var before := Prev(position, view, p);
        assert view.Values() == old(view.Values());
        if less(keyOf(before.value), keyOf(v)) && less(keyOf(v), keyOf(position.value)) {
          FitsBetween(v, p);
          if before.right == null {
            j := Insert(null, before, v, plan, p);
          } else {
            j := Insert(position, position, v, plan, p);
          }
          return;
        }
      }
      var inserted;
      j, inserted, i := InsertUnique(v, plan);
    }

    /** A key strictly between two neighbours belongs there, and one of the two has a free link. */
    lemma FitsBetween(v: V, i: nat)
      requires Valid() && i <= |view.nodes|
      requires i > 0 ==> less(keyOf(view.nodes[i - 1].value), keyOf(v))
      requires i < |view.nodes| ==> less(keyOf(v), keyOf(view.nodes[i].value))
      ensures Belongs(v, i)
      ensures 0 < i ==> (view.nodes[i - 1].right == null <==> view.cells[i - 1].right == NONE)
      ensures 0 < i < |view.nodes| ==> view.cells[i - 1].right == NONE || view.cells[i].left == NONE
      ensures i == 0 && view.nodes != [] ==> view.cells[0].left == NONE
      ensures i > 0 && i == |view.nodes| ==> view.cells[i - 1].right == NONE
    {
      var ks, k := Keys(), keyOf(v);
      forall q | 0 <= q < i ensures less(ks[q], k) { assert WeakLaws(less, ks[q], ks[i - 1], k); }
      if i < |ks| { assert WeakLaws(less, k, ks[i], k); }
      LowerBoundIs(less, ks, k, i);
      if i > 0 { assert CellOk(view.cells, view.root, i - 1) && view.Linked(i - 1); }
      if i < |ks| { assert CellOk(view.cells, view.root, i); }
      if 0 < i < |ks| { GapIsFree(view.cells, view.root, i); }
    }

    // ---------- Teardown ----------

    /** destroy_node(x): the node goes back to the allocator; what it holds from now on is unspecified. */
    method DestroyNode(x: Node<V>)
      requires x in heap
      modifies this`heap, x
      ensures heap == old(heap) - {x}
    {
      heap := heap - {x};
    }

    /** What is still to be destroyed: the nodes at positions a to e, the subtree at x. */
    ghost predicate ToErase(x: Node?<V>, t: View<V>, a: int, e: int, j: int)
      reads this`heap, t.nodes
    {
      && |t.cells| == |t.nodes| && Wf(t.cells, t.root) && t.Distinct() && 0 <= a <= e <= |t.nodes|
      && (if x == null then a == e
          else 0 <= j < |t.nodes| && x == t.nodes[j] && t.cells[j].lo == a && t.cells[j].hi == e)
      && t.Span(a, e) <= heap && forall q :: a <= q < e ==> t.Linked(q)
    }

    /** One turn of erase_without_rebalance: x goes, and its right subtree; its left one is next. */
    method EraseTurn(x: Node<V>, ghost t: View<V>, ghost a: int, ghost e: int, ghost j: int)
      returns (y: Node?<V>, ghost i: int)
      requires ToErase(x, t, a, e, j)
      modifies this`heap, t.Span(a, e)
      ensures a <= j < e && ToErase(y, t, a, j, i)
      ensures heap == old(heap) - (t.Span(a, e) - t.Span(a, j))
      decreases e - a, 0
    {
      assert CellOk(t.cells, t.root, j) && t.Linked(j);
      SubtreeLinks(t, j);
      t.SpanCut(a, j, e);
      EraseWithoutRebalance(x.right, t, j + 1, e, t.cells[j].right);
      assert t.Linked(j);
      y, i := x.left, t.cells[j].left;
      DestroyNode(x);
    }

    /** erase_without_rebalance(x): destroys the nodes at positions a to b, the subtree at x. */
    method EraseWithoutRebalance(node: Node?<V>, ghost t: View<V>, ghost a: int, ghost b: int, ghost i: int)
      requires ToErase(node, t, a, b, i)
      modifies this`heap, t.Span(a, b)
      ensures heap == old(heap) - t.Span(a, b)
      decreases b - a, 1
    {
      var x := node;
      ghost var e, j := b, i;
      while x != null
        invariant ToErase(x, t, a, e, j) && e <= b && t.Span(a, e) <= t.Span(a, b)
        invariant heap == old(heap) - (t.Span(a, b) - t.Span(a, e))
        decreases e - a
      {
        ghost var k := j;
        x, j := EraseTurn(x, t, a, e, j);
        e := k;
      }
    }

    /** clear(): back to the state the constructor leaves; every node was handed back. */
    method Clear()
      requires Valid()
      modifies this, header, view.nodes
      ensures Valid() && view.nodes == [] && heap == {header}
    {
      if nodeCount != 0 {
        assert CellOk(view.cells, view.root, view.root);
        EraseWithoutRebalance(header.parent, view, 0, |view.nodes|, view.root);
        header.left := header;
        header.parent := null;
        header.right := header;
        nodeCount := 0;
        view := View(header, [], [], NONE);
      }
    }

    /** The destructor: nothing is left allocated. */
    method Destroy()
      requires Valid()
      modifies this, header, view.nodes
      ensures heap == {}
    {
      Clear();
      heap := heap - {header};
    }

    // ---------- Copying ----------

    /** clone_node(x): a node with x's colour and value and no children. */
    method CloneNode(x: Node<V>) returns (n: Node<V>)
      modifies this`heap
      ensures fresh(n) && heap == old(heap) + {n}
      ensures n.color == x.color && n.value == x.value && n.left == null && n.right == null
    {
      n := CreateNode(x.value);
      n.color := x.color;
      n.left := null;
      n.right := null;
    }

    /** One clone of a node together with the copy of its right subtree. */
    method CopyRightPart(x: Node<V>, p: Node<V>, ghost t: View<V>, ghost i: int)
      returns (y: Node<V>, ghost sub: seq<Node<V>>)
      requires t.Tree() && 0 <= i < |t.nodes| && x == t.nodes[i]
      modifies this`heap
      ensures i + 1 + |sub| == t.cells[i].hi <= |t.nodes|
      ensures AllDifferent([y] + sub) && forall n :: n in [y] + sub ==> fresh(n)
      ensures heap == old(heap) + Members([y] + sub)
      ensures y.color == x.color && y.value == x.value && y.left == null && y.parent == p
      ensures y.right == Made(i + 1, sub, t.cells[i].right) && ClonedAll(t, i + 1, sub, t.cells[i].right, y)
      decreases t.cells[i].hi - t.cells[i].lo, 0
    {
      assert CellOk(t.cells, t.root, i) && t.Linked(i);
      y := CloneNode(x);
      y.parent := p;
      sub := [];
      if x.right != null {
        assert CellOk(t.cells, t.root, t.cells[i].right);
        var r;
        r, sub := Copy(x.right, y, t, t.cells[i].right);
        y.right := r;
      }
      assert y !in sub;
    }

    /** One turn of copy's loop: x, the left child of the node that p copies, is copied and hung from p. */
    method CopySpineNode(x: Node<V>, p: Node<V>, ghost t: View<V>, ghost j: int, ghost l: int, ghost made: seq<Node<V>>,
                         ghost top: int,
                         ghost parent: Node<V>)
      returns (y: Node<V>, ghost sub: seq<Node<V>>)
      requires t.Tree() && 0 <= l < j <= top < j + |made| <= |t.nodes| && t.cells[j].left == l && t.cells[l].hi == j
      requires x == t.nodes[l]
      requires p == made[0] && p !in t.nodes && AllDifferent(made) && ClonedFrom(t, j, made, top, parent)
      modifies this`heap, p`left
      ensures SpineStep(t, j, l, y, sub, made, top, parent)
      ensures AllDifferent([y] + sub) && forall n :: n in [y] + sub ==> fresh(n)
      ensures heap == old(heap) + Members([y] + sub)
      decreases t.cells[l].hi - t.cells[l].lo, 1
    {
      y, sub := CopyRightPart(x, p, t, l);
      ghost var m, r := l + 1, t.cells[l].right;
      assert made[0] in made && y in [y] + sub && Cloned(t, j, made, j, top, parent);
      label Before:
      p.left := y;
      forall q | m <= q < j ensures Cloned(t, m, sub, q, r, y) {
        assert sub[q - m] in [y] + sub && old@Before(Cloned(t, m, sub, q, r, y));
      }
      forall q | j < q < j + |made| ensures Cloned(t, j, made, q, top, parent) {
        assert made[q - j] != made[0] && old@Before(Cloned(t, j, made, q, top, parent));
      }
    }

    /** Between turns of copy's loop for the subtree at position i: made holds the copies from
        position j on, p is the first of them, and x, its original's left child, is next. */
    ghost predicate OnSpine(x: Node?<V>, p: Node<V>, t: View<V>, i: int, j: int, made: seq<Node<V>>, top: Node<V>,
                            parent: Node<V>)
      reads t.nodes, made
    {
      && t.Tree() && 0 <= i < |t.nodes| && 0 <= t.cells[i].lo <= j <= i && t.cells[j].lo == t.cells[i].lo
      && made != [] && j + |made| == t.cells[i].hi <= |t.nodes| && i < t.cells[i].hi
      && x == t.Child(t.cells[j].left) && p == made[0] && p !in t.nodes
      && top == made[i - j] && AllDifferent(made) && ClonedFrom(t, j, made, i, parent)
    }

    /** One turn of copy's loop. */
    method CopyTurn(x: Node<V>, p: Node<V>, ghost t: View<V>, ghost i: int, ghost j: int, ghost made: seq<Node<V>>,
                    ghost top: Node<V>,
                    ghost parent: Node<V>)
      returns (y: Node<V>, x': Node?<V>, ghost l: int, ghost made': seq<Node<V>>)
      requires OnSpine(x, p, t, i, j, made, top, parent)
      modifies this`heap, p`left
      ensures l < j && OnSpine(x', y, t, i, l, made', top, parent) && fresh(y)
      ensures Members(made) <= Members(made') && fresh(Members(made') - Members(made))
      ensures heap == old(heap) + (Members(made') - Members(made))
      decreases j - t.cells[i].lo, 2
    {
      l := t.cells[j].left;
      LeftChild(t, j);
      ghost var sub;
      y, sub := CopySpineNode(x, p, t, j, l, made, i, parent);
      SpineGrown(t, j, l, y, sub, made, i, parent);
      assert y in [y] + sub;
      made' := [y] + sub + made;
      x' := x.left;
    }

    /** copy's loop down the left links, from the node that top copies. */
    method CopySpine(first: Node?<V>, top: Node<V>, ghost t: View<V>, ghost i: int, ghost made0: seq<Node<V>>,
                     ghost parent: Node<V>)
      returns (ghost made: seq<Node<V>>)
      requires OnSpine(first, top, t, i, i, made0, top, parent) && Members(made0) <= heap
      modifies this`heap, top`left
      ensures |made| == t.cells[i].hi - t.cells[i].lo && top == made[i - t.cells[i].lo]
      ensures AllDifferent(made) && fresh(Members(made) - Members(made0))
      ensures heap == old(heap) + Members(made)
      ensures ClonedAll(t, t.cells[i].lo, made, i, parent) && Members(made0) <= Members(made)
      decreases t.cells[i].hi - t.cells[i].lo, 3
    {
      var p := top;
      var x := first;
      made := made0;
      ghost var j := i;
      while x != null
        invariant OnSpine(x, p, t, i, j, made, top, parent) && (p == top || fresh(p))
        invariant Members(made0) <= Members(made) && fresh(Members(made) - Members(made0))
        invariant heap == old(heap) + Members(made)
        decreases j
      {
        p, x, j, made := CopyTurn(x, p, t, i, j, made, top, parent);
      }
      assert CellOk(t.cells, t.root, j);
    }

    /** copy(x, p): a structural copy of the subtree at x, to hang from p. */
    method Copy(node: Node<V>, parent: Node<V>, ghost t: View<V>, ghost i: int)
      returns (top: Node<V>, ghost made: seq<Node<V>>)
      requires t.Tree() && 0 <= i < |t.nodes| && node == t.nodes[i]
      modifies this`heap
      ensures 0 <= t.cells[i].lo <= i < t.cells[i].hi <= |t.nodes| && |made| == t.cells[i].hi - t.cells[i].lo
      ensures top == made[i - t.cells[i].lo]
      ensures AllDifferent(made) && forall n :: n in made ==> fresh(n)
      ensures heap == old(heap) + Members(made)
      ensures ClonedAll(t, t.cells[i].lo, made, i, parent)
      decreases t.cells[i].hi - t.cells[i].lo, 4
    {
      ghost var sub;
      top, sub := CopyRightPart(node, parent, t, i);
      assert top in [top] + sub;
      CloneTop(t, i, top, sub, parent);
      assert CellOk(t.cells, t.root, i) && t.Linked(i);
      made := CopySpine(node.left, top, t, i, [top] + sub, parent);
    }

    /** The copy constructor: same shape, colours and values on nodes of its own; x is left as it was. */
    constructor Copied(x: RbTree<K, V>)
      requires x.Valid()
      ensures Valid() && less == x.less && keyOf == x.keyOf
      ensures view.cells == x.view.cells && view.root == x.view.root && view.Values() == old(x.view.Values())
      ensures forall q :: 0 <= q < |view.nodes| ==> view.nodes[q].color == old(x.view.nodes[q].color)
      ensures fresh(heap)
    {
      ghost var ks := x.Keys();
      less, keyOf := x.less, x.keyOf;
      nodeCount := 0;
      var h := new Node();
      header := h;
      view := View(h, [], [], NONE);
      heap := {h};
      new;
      header.color := Red;
      header.left := header;
      header.right := header;
      header.parent := null;
      Fill(x);
      assert Keys() == ks;
    }

    /** The copy constructor on an empty header. */
    method Fill(x: RbTree<K, V>)
      requires x.Shaped() && x != this && header != x.header && header !in x.view.nodes
      requires view == View(header, [], [], NONE) && view.Headed() && heap == {header} && header.color == Red
      modifies this`heap, this`view, this`nodeCount, header
      ensures Shaped() && view.cells == x.view.cells && view.root == x.view.root && fresh(Members(view.nodes))
      ensures view.Values() == old(x.view.Values())
      ensures forall q :: 0 <= q < |view.nodes| ==> view.nodes[q].color == old(x.view.nodes[q].color)
    {
      if x.header.parent != null {
        CopyNodes(x);
      }
      nodeCount := x.nodeCount;
    }

    /** The part of the copy constructor for a tree with nodes. */
    method CopyNodes(x: RbTree<K, V>)
      requires x.Shaped() && x.view.nodes != [] && x != this && header != x.header && header !in x.view.nodes
      requires heap == {header} && header.color == Red
      modifies this`heap, this`view, header
      ensures view.header == header && view.Tree() && view.Headed() && heap == Members(view.nodes) + {header}
      ensures view.cells == x.view.cells && view.root == x.view.root && fresh(Members(view.nodes))
      ensures view.Values() == old(x.view.Values())
      ensures forall q :: 0 <= q < |view.nodes| ==> view.nodes[q].color == old(x.view.nodes[q].color)
    {
      ghost var t, vs := x.view, x.view.Values();
      var top;
      ghost var made;
      top, made := Copy(x.header.parent, header, t, t.root);
      ClonedTree(t, made, header);
      forall q | 0 <= q < |made| ensures made[q].color == old(t.nodes[q].color) && made[q].value == vs[q] {
        assert Cloned(t, 0, made, q, t.root, header);
      }
      view := t.(header := header, nodes := made);
      FinishHeader(top);
      assert view.Values() == vs;
    }

    /** The header gets the copied root, and the first and the last node of the copy as its ends. */
    method FinishHeader(top: Node<V>)
      requires view.header == header && view.Tree() && view.nodes != [] && top == view.nodes[view.root]
      requires header.color == Red
      modifies header`parent, header`left, header`right
      ensures view.Tree() && view.Headed()
    {
      header.parent := top;
      header.left := Minimum(header.parent, view, view.root);
      header.right := Maximum(header.parent, view, view.root);
    }
  }

  lemma LeftChild<V(0)>(t: View<V>, j: int)
    requires t.Tree() && 0 <= j < |t.nodes| && t.Child(t.cells[j].left) != null
    ensures var l := t.cells[j].left;
            && 0 <= l < j && t.cells[l].hi == j && t.cells[l].lo == t.cells[j].lo <= l
            && t.nodes[l].left == t.Child(t.cells[l].left)
  {
    assert CellOk(t.cells, t.root, j) && t.Linked(t.cells[j].left);
    assert CellOk(t.cells, t.root, t.cells[j].left);
  }

  /** What one node's pointers say about the ranges of its two subtrees. */
  lemma SubtreeLinks<V(0)>(t: View<V>, j: int)
    requires |t.cells| == |t.nodes| && Wf(t.cells, t.root) && 0 <= j < |t.nodes| && t.Linked(j)
    ensures 0 <= t.cells[j].lo <= j < t.cells[j].hi <= |t.nodes|
    ensures var l := t.cells[j].left;
            if t.nodes[j].left == null then t.cells[j].lo == j
            else 0 <= l < |t.nodes| && t.nodes[j].left == t.nodes[l]
                 && t.cells[l].lo == t.cells[j].lo && t.cells[l].hi == j
    ensures var r := t.cells[j].right;
            if t.nodes[j].right == null then t.cells[j].hi == j + 1
            else 0 <= r < |t.nodes| && t.nodes[j].right == t.nodes[r]
                 && t.cells[r].lo == j + 1 && t.cells[r].hi == t.cells[j].hi
  {
    assert CellOk(t.cells, t.root, j);
  }
}
