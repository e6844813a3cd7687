/** The pointer level of the tree under Oscl_Map (oscl_tree.h): nodes linked by parent, left
    and right, and a header node whose parent, left and right are the root, the first and the
    last node, and which doubles as end(). */
module TreeNodes {
  import opened Layout

  datatype Color = Red | Black

  /** A node as get_node returns it: storage whose fields hold anything. */
  class Node<V(0)> {
    var color: Color
    var parent: Node?<V>
    var left: Node?<V>
    var right: Node?<V>
    var value: V

    constructor () {}
  }

  /** What the pointers of one tree spell out: the nodes in order, and the shape over them. */
  datatype View<V(0)> = View(header: Node<V>, nodes: seq<Node<V>>, cells: seq<Cell>, root: int) {

    /** The node at an in-order position; null at NONE. */
    ghost function Child(i: int): Node?<V> {
      if 0 <= i < |nodes| then nodes[i] else null
    }

    /** The iterator at a position: position |nodes| is end(), the header. */
    ghost function At(i: int): Node<V> {
      if 0 <= i < |nodes| then nodes[i] else header
    }

    ghost predicate Linked(i: int)
      requires 0 <= i < |nodes| == |cells|
      reads nodes[i]
    {
      && nodes[i].left == Child(cells[i].left)
      && nodes[i].right == Child(cells[i].right)
      && nodes[i].parent == At(cells[i].parent)
    }

    ghost predicate Distinct() {
      && header !in nodes
      && forall i, j :: 0 <= i < j < |nodes| ==> nodes[i] != nodes[j]
    }

    /** The values in order. */
    ghost function Values(): (s: seq<V>)
      reads nodes
      ensures |s| == |nodes|
    {
      seq(|nodes|, i requires 0 <= i < |nodes| reads nodes => nodes[i].value)
    }

    /** The nodes at positions a to b. */
    ghost function Span(a: int, b: int): set<Node<V>>
      requires 0 <= a <= b <= |nodes|
    {
      set q | a <= q < b :: nodes[q]
    }

    /** Position j cuts the span around it in three disjoint parts. */
    lemma SpanCut(a: int, j: int, b: int)
      requires Distinct() && 0 <= a <= j < b <= |nodes|
      ensures Span(a, b) == Span(a, j) + {nodes[j]} + Span(j + 1, b)
      ensures Span(a, j) !! Span(j + 1, b) && nodes[j] !in Span(a, j) && nodes[j] !in Span(j + 1, b)
    {
      forall n | n in Span(a, b) ensures n in Span(a, j) + {nodes[j]} + Span(j + 1, b) {
        var q :| a <= q < b && nodes[q] == n;
        assert q < j || q == j || j + 1 <= q;
      }
    }

    /** A new leaf z at position k, hung to the left of the node at k. */
    ghost function WithLeft(k: int, z: Node<V>): View<V>
      requires 0 <= k < |nodes| == |cells|
    {
      View(header, nodes[..k] + [z] + nodes[k..], InsertLeft(cells, k), Shift(k, root))
    }

    /** A new leaf z at position k, hung to the right of the node at k - 1. */
    ghost function WithRight(k: int, z: Node<V>): View<V>
      requires 0 < k <= |nodes| == |cells|
    {
      View(header, nodes[..k] + [z] + nodes[k..], InsertRight(cells, k), Shift(k, root))
    }

    ghost function LeftRotated(i: int): View<V>
      requires 0 <= i < |cells| && 0 <= cells[i].right < |cells|
    {
      this.(cells := RotateLeft(cells, i), root := Redirect(i, cells[i].right, root))
    }

    ghost function RightRotated(i: int): View<V>
      requires 0 <= i < |cells| && 0 <= cells[i].left < |cells|
    {
      this.(cells := RotateRight(cells, i), root := Redirect(i, cells[i].left, root))
    }

    /** The nodes form exactly this tree. */
    ghost predicate Tree()
      reads nodes
    {
      && |cells| == |nodes|
      && Wf(cells, root)
      && Distinct()
      && forall i :: 0 <= i < |nodes| ==> Linked(i)
    }

    /** The header caches the root and both ends. */
    ghost predicate Headed()
      reads header
    {
      && header.color == Red
      && header.parent == Child(root)
      && header.left == At(0)
      && header.right == At(|nodes| - 1)
    }
  }

  /** minimum(x): the first node of the subtree at x. */
  method Minimum<V(0)>(x: Node?<V>, ghost t: View<V>, ghost i: int) returns (m: Node?<V>)
    requires t.Tree() && (x != null ==> 0 <= i < |t.nodes| && x == t.nodes[i])
    ensures x == null ==> m == null
    ensures x != null ==> m == t.At(t.cells[i].lo)
  {
    m := x;
    if m != null {
      ghost var j := i;
      assert CellOk(t.cells, t.root, j) && t.Linked(j);
      while m.left != null
        invariant 0 <= j < |t.nodes| && m == t.nodes[j] && t.Linked(j)
        invariant CellOk(t.cells, t.root, j) && t.cells[j].lo == t.cells[i].lo
        decreases j
      {
        m := m.left;
        j := t.cells[j].left;
        assert CellOk(t.cells, t.root, j) && t.Linked(j);
      }
    }
  }

  /** maximum(x): the last node of the subtree at x. */
  method Maximum<V(0)>(x: Node?<V>, ghost t: View<V>, ghost i: int) returns (m: Node?<V>)
    requires t.Tree() && (x != null ==> 0 <= i < |t.nodes| && x == t.nodes[i])
    ensures x == null ==> m == null
    ensures x != null ==> m == t.At(t.cells[i].hi - 1)
  {
    m := x;
    if m != null {
      ghost var j := i;
      assert CellOk(t.cells, t.root, j) && t.Linked(j);
      while m.right != null
        invariant 0 <= j < |t.nodes| && m == t.nodes[j] && t.Linked(j)
        invariant CellOk(t.cells, t.root, j) && t.cells[j].hi == t.cells[i].hi
        decreases |t.nodes| - j
      {
        m := m.right;
        j := t.cells[j].right;
        assert CellOk(t.cells, t.root, j) && t.Linked(j);
      }
    }
  }

  /** operator++: the in-order successor; the last node goes to end(). */
  method Next<V(0)>(node: Node<V>, ghost t: View<V>, ghost i: int) returns (r: Node<V>)
    requires t.Tree() && t.Headed() && 0 <= i < |t.nodes| && node == t.nodes[i]
    ensures r == t.At(i + 1)
  {
    assert CellOk(t.cells, t.root, i) && t.Linked(i);
    if node.right != null {
      assert CellOk(t.cells, t.root, t.cells[i].right);
      r := Minimum(node.right, t, t.cells[i].right);
    } else {
      r := NextAbove(node, t, i);
    }
  }

  /** A subtree that does not hang to the right is followed by its parent. */
  lemma EnteredFromLeft<V(0)>(t: View<V>, j: int)
    requires t.Tree() && t.Headed() && 0 <= j < |t.nodes|
    requires t.At(t.cells[j].parent).right != t.nodes[j]
    ensures t.At(t.cells[j].parent) == t.At(t.cells[j].hi)
    ensures t.nodes[j].right != t.At(t.cells[j].parent)
  {
    assert CellOk(t.cells, t.root, j) && t.Linked(j);
    var p := t.cells[j].parent;
    if p != NONE { assert CellOk(t.cells, t.root, p) && t.Linked(p); }
    if t.cells[j].right != NONE { assert CellOk(t.cells, t.root, t.cells[j].right); }
  }

  /** The climbing half of operator++: up to the first ancestor entered from its left side. */
  method NextAbove<V(0)>(node: Node<V>, ghost t: View<V>, ghost i: int) returns (r: Node<V>)
    requires t.Tree() && t.Headed() && 0 <= i < |t.nodes| && node == t.nodes[i] && t.cells[i].right == NONE
    ensures r == t.At(i + 1)
  {
    ghost var n, j := |t.nodes|, i;
    assert CellOk(t.cells, t.root, j) && t.Linked(j);
    var x := node;
    var y := node.parent;
    while x == y.right
      invariant y != null
      invariant if j == n then i + 1 == n && x == t.header && y == t.Child(t.root) && y.right == null
                else 0 <= j < n && x == t.nodes[j] && y == t.At(t.cells[j].parent) && t.cells[j].hi == i + 1
      decreases if j == n then 0 else j + 1
    {
      ghost var p := t.cells[j].parent;
      assert CellOk(t.cells, t.root, j);
      if p != NONE {
        assert CellOk(t.cells, t.root, p) && t.Linked(p);
        assert t.cells[p].right == j;
      } else {
        assert t.Linked(t.root);
      }
      x := y;
      y := y.parent;
      j := if p == NONE then n else p;
    }
    if j < n {
      EnteredFromLeft(t, j);
    } else {
      assert CellOk(t.cells, t.root, t.root) && t.Linked(t.root);
    }
    r := x;
    if x.right != y { r := y; }
  }

  /** operator--: the in-order predecessor; end() goes to the last node.  The header is told
      from the root, its parent's parent too, by colour. */
  method Prev<V(0)>(node: Node<V>, ghost t: View<V>, ghost i: int) returns (r: Node<V>)
    requires t.Tree() && t.Headed() && 0 < i <= |t.nodes| && node == t.At(i)
    requires t.At(t.root).color == Black
    ensures r == t.At(i - 1)
  {
    ghost var n := |t.nodes|;
    assert CellOk(t.cells, t.root, t.root) && t.Linked(t.root);
    if i < n {
      NotOwnGrandparent(t, i);
      assert CellOk(t.cells, t.root, i) && t.Linked(i);
    }
    if node.color == Red && node.parent.parent == node {
      r := node.right;
    } else if node.left != null {
      r := Maximum(node.left, t, t.cells[i].left);
    } else {
      r := PrevAbove(node, t, i);
    }
  }

  /** The climbing half of operator--: up to the first ancestor entered from its right side. */
  method PrevAbove<V(0)>(node: Node<V>, ghost t: View<V>, ghost i: int) returns (r: Node<V>)
    requires t.Tree() && 0 < i < |t.nodes| && node == t.nodes[i] && t.cells[i].left == NONE
    ensures r == t.At(i - 1)
  {
    ghost var n, j := |t.nodes|, i;
    assert CellOk(t.cells, t.root, i) && t.Linked(i);
    NonRootHasParent(t, j);
    var x := node;
    var y := node.parent;
    while x == y.left
      invariant 0 <= j < n && 0 <= t.cells[j].parent < n && t.cells[j].lo == i
      invariant x == t.nodes[j] && y == t.nodes[t.cells[j].parent]
      decreases n - j
    {
      ghost var p := t.cells[j].parent;
      assert CellOk(t.cells, t.root, j) && CellOk(t.cells, t.root, p) && t.Linked(p);
      assert t.cells[p].left == j;
      NonRootHasParent(t, p);
      x := y;
      y := y.parent;
      j := p;
    }
    assert CellOk(t.cells, t.root, j);
    assert CellOk(t.cells, t.root, t.cells[j].parent) && t.Linked(t.cells[j].parent);
    r := y;
  }

  /** Only the root's subtree starts at position 0. */
  lemma NonRootHasParent<V(0)>(t: View<V>, j: int)
    requires t.Tree() && 0 <= j < |t.nodes| && t.cells[j].lo > 0
    ensures 0 <= t.cells[j].parent < |t.nodes|
  {
    assert CellOk(t.cells, t.root, j);
  }

  lemma NotOwnGrandparent<V(0)>(t: View<V>, i: int)
    requires t.Tree() && t.Headed() && 0 <= i < |t.nodes|
    requires t.At(t.root).color == Black
    ensures t.nodes[i].parent != null
    ensures !(t.nodes[i].color == Red && t.nodes[i].parent.parent == t.nodes[i])
  {
    assert CellOk(t.cells, t.root, i) && t.Linked(i);
    var p := t.cells[i].parent;
    if p != NONE {
      assert CellOk(t.cells, t.root, p) && t.Linked(p);
      var g := t.cells[p].parent;
      if g == i { assert false; }
    }
  }

  // ---------- Hanging a leaf ----------

  lemma LeafDistinct<V(0)>(t: View<V>, k: int, z: Node<V>, t': View<V>)
    requires t.Distinct() && 0 <= k <= |t.nodes| && z !in t.nodes && z != t.header
    requires t'.header == t.header && t'.nodes == t.nodes[..k] + [z] + t.nodes[k..]
    ensures t'.Distinct()
  {
    assert forall i :: 0 <= i < |t'.nodes| ==> t'.nodes[i] == if i == k then z else t.nodes[Unshift(k, i)];
  }

  /** Old node j keeps its links, at its new position, when z is hung at position k. */
  lemma LeftLeafKeepsLink<V(0)>(t: View<V>, k: int, z: Node<V>, j: int)
    requires |t.cells| == |t.nodes| && 0 <= k < |t.nodes| && 0 <= j < |t.nodes| && CellOk(t.cells, t.root, j)
    requires j != k ==> t.Linked(j)
    requires j == k ==>
      && t.nodes[j].left == z && t.nodes[j].right == t.Child(t.cells[j].right)
      && t.nodes[j].parent == t.At(t.cells[j].parent)
    ensures t.WithLeft(k, z).Linked(Shift(k, j))
  {
    var t' := t.WithLeft(k, z);
    assert t'.nodes[Shift(k, j)] == t.nodes[j] && t'.cells[Shift(k, j)] == LeftCell(t.cells, k, j);
  }

  lemma LeftLeafLinked<V(0)>(t: View<V>, k: int, z: Node<V>)
    requires |t.cells| == |t.nodes| && Wf(t.cells, t.root) && t.Distinct()
    requires 0 <= k < |t.nodes| && t.cells[k].left == NONE && z !in t.nodes && z != t.header
    requires forall j :: 0 <= j < |t.nodes| && j != k ==> t.Linked(j)
    requires t.nodes[k].left == z && t.nodes[k].right == t.Child(t.cells[k].right)
    requires t.nodes[k].parent == t.At(t.cells[k].parent)
    requires z.left == null && z.right == null && z.parent == t.nodes[k]
    ensures t.WithLeft(k, z).Tree()
  {
    InsertLeftWf(t.cells, t.root, k);
    LeafDistinct(t, k, z, t.WithLeft(k, z));
    assert t.WithLeft(k, z).Linked(k);
    forall i | 0 <= i < |t.nodes| + 1 ensures t.WithLeft(k, z).Linked(i) {
      if i != k {
        assert CellOk(t.cells, t.root, Unshift(k, i));
        LeftLeafKeepsLink(t, k, z, Unshift(k, i));
      }
    }
  }

  /** Old node j keeps its links, at its new position, when z is hung at position k. */
  lemma RightLeafKeepsLink<V(0)>(t: View<V>, k: int, z: Node<V>, j: int)
    requires |t.cells| == |t.nodes| && 0 < k <= |t.nodes| && 0 <= j < |t.nodes| && CellOk(t.cells, t.root, j)
    requires j != k - 1 ==> t.Linked(j)
    requires j == k - 1 ==>
      && t.nodes[j].right == z && t.nodes[j].left == t.Child(t.cells[j].left)
      && t.nodes[j].parent == t.At(t.cells[j].parent)
    ensures t.WithRight(k, z).Linked(Shift(k, j))
  {
    var t' := t.WithRight(k, z);
    assert t'.nodes[Shift(k, j)] == t.nodes[j] && t'.cells[Shift(k, j)] == RightCell(t.cells, k, j);
  }

  lemma RightLeafLinked<V(0)>(t: View<V>, k: int, z: Node<V>)
    requires |t.cells| == |t.nodes| && Wf(t.cells, t.root) && t.Distinct()
    requires 0 < k <= |t.nodes| && t.cells[k - 1].right == NONE && z !in t.nodes && z != t.header
    requires forall j :: 0 <= j < |t.nodes| && j != k - 1 ==> t.Linked(j)
    requires t.nodes[k - 1].right == z && t.nodes[k - 1].left == t.Child(t.cells[k - 1].left)
    requires t.nodes[k - 1].parent == t.At(t.cells[k - 1].parent)
    requires z.left == null && z.right == null && z.parent == t.nodes[k - 1]
    ensures t.WithRight(k, z).Tree()
  {
    InsertRightWf(t.cells, t.root, k);
    LeafDistinct(t, k, z, t.WithRight(k, z));
    assert t.WithRight(k, z).Linked(k);
    forall i | 0 <= i < |t.nodes| + 1 ensures t.WithRight(k, z).Linked(i) {
      if i != k {
        assert CellOk(t.cells, t.root, Unshift(k, i));
        RightLeafKeepsLink(t, k, z, Unshift(k, i));
      }
    }
  }

  /** The header after a leaf was hung: its ends follow the new first or last node. */
  lemma LeafHeaded<V(0)>(t: View<V>, k: int, z: Node<V>, t': View<V>)
    requires |t.cells| == |t.nodes| && Wf(t.cells, t.root) && 0 <= k <= |t.nodes| && t.nodes != []
    requires t'.header == t.header && t'.nodes == t.nodes[..k] + [z] + t.nodes[k..] && t'.root == Shift(k, t.root)
    requires t.header.color == Red && t.header.parent == t.Child(t.root)
    requires t.header.left == (if k == 0 then z else t.At(0))
    requires t.header.right == (if k == |t.nodes| then z else t.At(|t.nodes| - 1))
    ensures t'.Headed()
  {
  }

  lemma SplicedValues<V(0)>(t: View<V>, ns: seq<Node<V>>, vs: seq<V>, k: int, z: Node<V>)
    requires |vs| == |ns| && 0 <= k <= |ns| && t.nodes == ns[..k] + [z] + ns[k..]
    requires forall q :: 0 <= q < |ns| ==> ns[q].value == vs[q]
    ensures t.Values() == vs[..k] + [z.value] + vs[k..]
    ensures forall n :: n in t.nodes <==> n == z || n in ns
  {
    assert forall n :: n in ns <==> n in ns[..k] || n in ns[k..];
  }

  // ---------- Rotations and rebalancing ----------

  /** rotate_left(x, root): the right child y of x takes x's place, x becomes its left child. */
  method RotateLeftLinks<V(0)>(x: Node<V>, y: Node<V>, header: Node<V>)
    requires y == x.right && x.parent != null
    requires header != x && x != y && x.parent != x && x.parent != y && y.left != x && y.left != y
    requires y.left == null || y.left != x.parent
    requires header != y && header != y.left && (x == header.parent ==> x.parent == header)
    modifies header`parent, y`left, y`parent, x`right, x`parent, (if y.left == null then {} else {y.left})`parent,
      (if x == header.parent then {} else {x.parent})`left, (if x == header.parent then {} else {x.parent})`right
    ensures x.right == old(y.left) && x.parent == y && y.left == x && y.parent == old(x.parent)
    ensures old(y.left) != null ==> old(y.left).parent == x
    ensures header.parent == if old(header.parent) == x then y else old(header.parent)
    ensures old(header.parent) == x ==>
      && old(x.parent).left == old(x.parent.left) && old(x.parent).right == old(x.parent.right)
    ensures old(header.parent) != x && old(x.parent.left) == x ==>
      && old(x.parent).left == y && old(x.parent).right == old(x.parent.right)
    ensures old(header.parent) != x && old(x.parent.left) != x ==>
      && old(x.parent).left == old(x.parent.left) && old(x.parent).right == y
  {
    x.right := y.left;
    if y.left != null { y.left.parent := x; }
    y.parent := x.parent;
    if x == header.parent {
      header.parent := y;
    } else if x == x.parent.left {
      x.parent.left := y;
    } else {
      x.parent.right := y;
    }
    y.left := x;
    x.parent := y;
  }

  /** The link of node q that led to old now leads to old, or to y where rotation moved y into x's place. */
  lemma LeftRotatedLinks<V(0)>(t: View<V>, i: int, q: int, x: Node<V>, y: Node<V>, n: Node<V>)
    requires Wf(t.cells, t.root) && t.Distinct() && |t.cells| == |t.nodes|
    requires 0 <= i < |t.nodes| && 0 <= t.cells[i].right < |t.nodes| && 0 <= q < |t.nodes|
    requires x == t.nodes[i] && y == t.nodes[t.cells[i].right] && n == t.nodes[q]
    requires n.left == if n == y then x else if q == t.cells[i].parent && t.cells[q].left == i
                       then y
                       else t.Child(t.cells[q].left)
    requires n.right == if n == x then t.Child(t.cells[t.cells[i].right].left)
                        else if q == t.cells[i].parent && t.cells[q].right == i then y else t.Child(t.cells[q].right)
    requires n.parent == if n == y then t.At(t.cells[i].parent) else if n == x then y
                         else if q == t.cells[t.cells[i].right].left then x else t.At(t.cells[q].parent)
    ensures t.LeftRotated(i).Linked(q)
  {
    var t', j, c := t.LeftRotated(i), t.cells[i].right, t.cells;
    assert CellOk(c, t.root, i) && CellOk(c, t.root, j) && CellOk(c, t.root, q);
    assert t'.cells[q] == RotatedLeft(c, i, q);
    assert n.left == t'.Child(t'.cells[q].left);
    assert n.right == t'.Child(t'.cells[q].right);
    assert n.parent == t'.At(t'.cells[q].parent);
  }

  /** The nodes whose links a left rotation at i touches are all different. */
  lemma LeftRotationApart<V(0)>(t: View<V>, i: int)
    requires t.Tree() && 0 <= i < |t.nodes| && t.cells[i].right != NONE
    ensures 0 <= t.cells[i].right < |t.nodes|
    ensures var j := t.cells[i].right; var b, p := t.cells[j].left, t.cells[i].parent;
            && i < j && p != i && p != j && -1 <= p < |t.nodes| && -1 <= b < |t.nodes|
            && (b != NONE ==> i < b < j && b != p)
            && (p == NONE <==> i == t.root)
            && t.nodes[i].right == t.nodes[j] && t.nodes[j].left == t.Child(b) && t.nodes[i].parent == t.At(p)
            && (p != NONE ==> ((t.nodes[p].left == t.nodes[i] <==> t.cells[p].left == i)
                            && (t.nodes[p].right == t.nodes[i] <==> t.cells[p].right == i)
                            && (t.cells[p].left == i || t.cells[p].right == i) && t.cells[p].left != t.cells[p].right))
  {
    var c := t.cells;
    assert CellOk(c, t.root, i) && t.Linked(i);
    var j := c[i].right;
    var b, p := c[j].left, c[i].parent;
    assert CellOk(c, t.root, j) && t.Linked(j);
    if b != NONE { assert CellOk(c, t.root, b); }
    if p != NONE { assert CellOk(c, t.root, p) && t.Linked(p); }
  }

  method RotateLeftAt<V(0)>(x: Node<V>, header: Node<V>, ghost t: View<V>, ghost i: int)
    requires t.Tree() && t.Headed() && header == t.header
    requires 0 <= i < |t.nodes| && x == t.nodes[i] && t.cells[i].right != NONE
    modifies header`parent, t.nodes`parent, t.nodes`left, t.nodes`right
    ensures 0 <= t.cells[i].right < |t.nodes|
    ensures t.LeftRotated(i).Tree() && t.LeftRotated(i).Headed()
  {
    assert CellOk(t.cells, t.root, i);
    RotateLeftWf(t.cells, t.root, i);
    LeftRotationApart(t, i);
    RotateLeftLinks(x, x.right, header);
    ghost var y := t.nodes[t.cells[i].right];
    forall q | 0 <= q < |t.nodes| ensures t.LeftRotated(i).Linked(q) {
      assert old(t.Linked(q));
      LeftRotatedLinks(t, i, q, x, y, t.nodes[q]);
    }
  }

  /** rotate_right(x, root): the mirror image of rotate_left. */
  method RotateRightLinks<V(0)>(x: Node<V>, y: Node<V>, header: Node<V>)
    requires y == x.left && x.parent != null
    requires header != x && x != y && x.parent != x && x.parent != y && y.right != x && y.right != y
    requires y.right == null || y.right != x.parent
    requires header != y && header != y.right && (x == header.parent ==> x.parent == header)
    modifies header`parent, y`right, y`parent, x`left, x`parent, (if y.right == null then {} else {y.right})`parent,
      (if x == header.parent then {} else {x.parent})`left, (if x == header.parent then {} else {x.parent})`right
    ensures x.left == old(y.right) && x.parent == y && y.right == x && y.parent == old(x.parent)
    ensures old(y.right) != null ==> old(y.right).parent == x
    ensures header.parent == if old(header.parent) == x then y else old(header.parent)
    ensures old(header.parent) == x ==>
      && old(x.parent).right == old(x.parent.right) && old(x.parent).left == old(x.parent.left)
    ensures old(header.parent) != x && old(x.parent.right) == x ==>
      && old(x.parent).right == y && old(x.parent).left == old(x.parent.left)
    ensures old(header.parent) != x && old(x.parent.right) != x ==>
      && old(x.parent).right == old(x.parent.right) && old(x.parent).left == y
  {
    x.left := y.right;
    if y.right != null { y.right.parent := x; }
    y.parent := x.parent;
    if x == header.parent {
      header.parent := y;
    } else if x == x.parent.right {
      x.parent.right := y;
    } else {
      x.parent.left := y;
    }
    y.right := x;
    x.parent := y;
  }

  /** The link of node q that led to old now leads to old, or to y where rotation moved y into x's place. */
  lemma RightRotatedLinks<V(0)>(t: View<V>, i: int, q: int, x: Node<V>, y: Node<V>, n: Node<V>)
    requires Wf(t.cells, t.root) && t.Distinct() && |t.cells| == |t.nodes|
    requires 0 <= i < |t.nodes| && 0 <= t.cells[i].left < |t.nodes| && 0 <= q < |t.nodes|
    requires x == t.nodes[i] && y == t.nodes[t.cells[i].left] && n == t.nodes[q]
    requires n.right == if n == y then x else if q == t.cells[i].parent && t.cells[q].right == i
                        then y
                        else t.Child(t.cells[q].right)
    requires n.left == if n == x then t.Child(t.cells[t.cells[i].left].right)
                        else if q == t.cells[i].parent && t.cells[q].left == i then y else t.Child(t.cells[q].left)
    requires n.parent == if n == y then t.At(t.cells[i].parent) else if n == x then y
                         else if q == t.cells[t.cells[i].left].right then x else t.At(t.cells[q].parent)
    ensures t.RightRotated(i).Linked(q)
  {
    var t', j, c := t.RightRotated(i), t.cells[i].left, t.cells;
    assert CellOk(c, t.root, i) && CellOk(c, t.root, j) && CellOk(c, t.root, q);
    assert t'.cells[q] == RotatedRight(c, i, q);
    assert n.right == t'.Child(t'.cells[q].right);
    assert n.left == t'.Child(t'.cells[q].left);
    assert n.parent == t'.At(t'.cells[q].parent);
  }

  /** The nodes whose links a right rotation at i touches are all different. */
  lemma RightRotationApart<V(0)>(t: View<V>, i: int)
    requires t.Tree() && 0 <= i < |t.nodes| && t.cells[i].left != NONE
    ensures 0 <= t.cells[i].left < |t.nodes|
    ensures var j := t.cells[i].left; var b, p := t.cells[j].right, t.cells[i].parent;
            && j < i && p != i && p != j && -1 <= p < |t.nodes| && -1 <= b < |t.nodes|
            && (b != NONE ==> j < b < i && b != p)
            && (p == NONE <==> i == t.root)
            && t.nodes[i].left == t.nodes[j] && t.nodes[j].right == t.Child(b) && t.nodes[i].parent == t.At(p)
            && (p != NONE ==> ((t.nodes[p].right == t.nodes[i] <==> t.cells[p].right == i)
                            && (t.nodes[p].left == t.nodes[i] <==> t.cells[p].left == i)
                            && (t.cells[p].right == i || t.cells[p].left == i) && t.cells[p].right != t.cells[p].left))
  {
    var c := t.cells;
    assert CellOk(c, t.root, i) && t.Linked(i);
    var j := c[i].left;
    var b, p := c[j].right, c[i].parent;
    assert CellOk(c, t.root, j) && t.Linked(j);
    if b != NONE { assert CellOk(c, t.root, b); }
    if p != NONE { assert CellOk(c, t.root, p) && t.Linked(p); }
  }

  method RotateRightAt<V(0)>(x: Node<V>, header: Node<V>, ghost t: View<V>, ghost i: int)
    requires t.Tree() && t.Headed() && header == t.header
    requires 0 <= i < |t.nodes| && x == t.nodes[i] && t.cells[i].left != NONE
    modifies header`parent, t.nodes`parent, t.nodes`left, t.nodes`right
    ensures 0 <= t.cells[i].left < |t.nodes|
    ensures t.RightRotated(i).Tree() && t.RightRotated(i).Headed()
  {
    assert CellOk(t.cells, t.root, i);
    RotateRightWf(t.cells, t.root, i);
    RightRotationApart(t, i);
    RotateRightLinks(x, x.left, header);
    ghost var y := t.nodes[t.cells[i].left];
    forall q | 0 <= q < |t.nodes| ensures t.RightRotated(i).Linked(q) {
      assert old(t.Linked(q));
      RightRotatedLinks(t, i, q, x, y, t.nodes[q]);
    }
  }

  datatype Turn = GoLeft | GoRight

  /** One repair step, at the node a path from the root leads to. */
  datatype Fix =
    | Rotate(path: seq<Turn>, toLeft: bool)
    | Paint(path: seq<Turn>, color: Color)

  method Follow<V(0)>(header: Node<V>, path: seq<Turn>, ghost t: View<V>) returns (x: Node?<V>, ghost i: int)
    requires t.Tree() && t.Headed() && header == t.header
    ensures x != null ==> 0 <= i < |t.nodes| && x == t.nodes[i]
  {
    x, i := header.parent, t.root;
    for d := 0 to |path|
      invariant x != null ==> 0 <= i < |t.nodes| && x == t.nodes[i]
    {
      if x != null {
        assert CellOk(t.cells, t.root, i) && t.Linked(i);
        if path[d] == GoLeft {
          x, i := x.left, t.cells[i].left;
        } else {
          x, i := x.right, t.cells[i].right;
        }
      }
    }
  }

  /** Applies one repair step; a rotation towards a missing child is no step. */
  method Repair<V(0)>(header: Node<V>, fix: Fix, ghost t: View<V>) returns (ghost t': View<V>)
    requires t.Tree() && t.Headed() && header == t.header
    modifies header`parent, t.nodes`parent, t.nodes`left, t.nodes`right, t.nodes`color
    ensures t'.nodes == t.nodes && t'.header == t.header && t'.Tree() && t'.Headed()
  {
    t' := t;
    ghost var i;
    var x;
    x, i := Follow(header, fix.path, t);
    if x != null {
      assert CellOk(t.cells, t.root, i) && t.Linked(i);
      match fix
      case Paint(_, color) =>
        x.color := color;
        assert forall q :: 0 <= q < |t.nodes| ==> old(t.Linked(q)) ==> t.Linked(q);
      case Rotate(_, toLeft) =>
        if toLeft && x.right != null {
          RotateLeftAt(x, header, t, i);
          t' := t.LeftRotated(i);
        } else if !toLeft && x.left != null {
          RotateRightAt(x, header, t, i);
          t' := t.RightRotated(i);
        }
    }
  }

  /** rebalance(z, root), whose body the repository does not hold: any finite list of rotations
      and recolourings, after which the root is black. */
  method Rebalance<V(0)>(header: Node<V>, plan: seq<Fix>, ghost t: View<V>) returns (ghost t': View<V>)
    requires t.Tree() && t.Headed() && header == t.header && t.nodes != []
    modifies header`parent, t.nodes`parent, t.nodes`left, t.nodes`right, t.nodes`color
    ensures t'.nodes == t.nodes && t'.header == t.header && t'.Tree() && t'.Headed()
    ensures t'.At(t'.root).color == Black
  {
    t' := t;
    for s := 0 to |plan|
      invariant t'.nodes == t.nodes && t'.header == t.header && t'.Tree() && t'.Headed()
    {
      t' := Repair(header, plan[s], t');
    }
    label L:
    header.parent.color := Black;
    assert forall q :: 0 <= q < |t'.nodes| ==> old@L(t'.Linked(q)) ==> t'.Linked(q);
  }

  // ---------- Structural copy ----------

  /** The copy standing for position j, where made[0] stands for position base. */
  ghost function Made<V(0)>(base: int, made: seq<Node<V>>, j: int): Node?<V> {
    if base <= j < base + |made| then made[j - base] else null
  }

  /** The copy of position q has q's colour and value, and its links lead to the copies of q's
      neighbours; top's copy hangs from p instead. */
  ghost predicate Cloned<V(0)>(t: View<V>, base: int, made: seq<Node<V>>, q: int, top: int, p: Node<V>)
    requires 0 <= q < |t.nodes| == |t.cells| && base <= q < base + |made|
    reads t.nodes[q], made[q - base]
  {
    var n := made[q - base];
    && n.color == t.nodes[q].color && n.value == t.nodes[q].value
    && n.left == Made(base, made, t.cells[q].left)
    && n.right == Made(base, made, t.cells[q].right)
    && n.parent == if q == top then p else Made(base, made, t.cells[q].parent)
  }

  ghost predicate ClonedAll<V(0)>(t: View<V>, base: int, made: seq<Node<V>>, top: int, p: Node<V>)
    requires |t.nodes| == |t.cells| && 0 <= base && base + |made| <= |t.nodes|
    reads t.nodes, made
  {
    forall q :: base <= q < base + |made| ==> Cloned(t, base, made, q, top, p)
  }

  /** The copies of positions j on are complete but for the left link of j's, which is next. */
  ghost predicate ClonedFrom<V(0)>(t: View<V>, j: int, made: seq<Node<V>>, top: int, p: Node<V>)
    requires |t.nodes| == |t.cells| && 0 <= j && j + |made| <= |t.nodes|
    reads t.nodes, made
  {
    && ClonedAll(t, j, made, top, p)
    && (forall q :: j < q < j + |made| ==> t.cells[q].left == NONE || t.cells[q].left >= j)
    && (forall q :: j <= q < j + |made| && q != top ==> t.cells[q].parent >= j)
  }

  lemma CloneGrowsOld<V(0)>(t: View<V>, j: int, l: int, front: seq<Node<V>>, made: seq<Node<V>>, q: int, top: int,
                            p: Node<V>)
    requires |t.nodes| == |t.cells| && 0 <= l < j && |front| == j - l && j <= q < j + |made| <= |t.nodes|
    requires CellOk(t.cells, t.root, q)
    requires q == j ==> t.cells[q].left == l
    requires q != j ==> t.cells[q].left == NONE || t.cells[q].left >= j
    requires q != top ==> t.cells[q].parent >= j
    requires var n := made[q - j];
             && n.color == t.nodes[q].color && n.value == t.nodes[q].value
             && n.left == (if q == j then front[0] else Made(j, made, t.cells[q].left))
             && n.right == Made(j, made, t.cells[q].right)
             && n.parent == if q == top then p else Made(j, made, t.cells[q].parent)
    ensures Cloned(t, l, front + made, q, top, p)
  {
    assert (front + made)[q - l] == made[q - j];
  }

  lemma CloneGrowsNew<V(0)>(t: View<V>, l: int, y: Node<V>, sub: seq<Node<V>>, made: seq<Node<V>>, q: int, top: int,
                            p: Node<V>)
    requires t.Tree() && 0 <= l < q <= l + |sub| && q != top && l + 1 + |sub| + |made| <= |t.nodes|
    requires t.cells[l].right != NONE && t.cells[l].hi == l + 1 + |sub|
    requires Cloned(t, l + 1, sub, q, t.cells[l].right, y)
    ensures Cloned(t, l, [y] + sub + made, q, top, p)
    ensures t.cells[q].left == NONE || t.cells[q].left >= l
    ensures t.cells[q].parent >= l
  {
    var c, r := t.cells, t.cells[l].right;
    assert CellOk(c, t.root, l) && CellOk(c, t.root, q);
    Nested(c, t.root, r, q);
    assert ([y] + sub + made)[q - l] == sub[q - l - 1];
    if c[q].left != NONE { assert CellOk(c, t.root, c[q].left); }
    if c[q].right != NONE { assert CellOk(c, t.root, c[q].right); }
    assert forall g :: l + 1 <= g < l + 1 + |sub| ==> Made(l, [y] + sub + made, g) == Made(l + 1, sub, g);
  }

  ghost function Members<V(0)>(s: seq<Node<V>>): set<Node<V>> {
    set n | n in s
  }

  ghost predicate AllDifferent<V(0)>(s: seq<Node<V>>) {
    forall a, b :: 0 <= a < b < |s| ==> s[a] != s[b]
  }

  lemma DifferentJoined<V(0)>(s: seq<Node<V>>, s': seq<Node<V>>)
    requires AllDifferent(s) && AllDifferent(s') && forall n :: n in s ==> n !in s'
    ensures AllDifferent(s + s')
    ensures forall n :: n in s + s' <==> n in s || n in s'
  {
    forall a, b | 0 <= a < b < |s + s'| ensures (s + s')[a] != (s + s')[b] {
      if a < |s| <= b { assert s[a] in s && s'[b - |s|] in s'; }
    }
  }

  /** The top of a copied subtree, with the copy of its right subtree. */
  lemma CloneTop<V(0)>(t: View<V>, i: int, y: Node<V>, sub: seq<Node<V>>, p: Node<V>)
    requires t.Tree() && 0 <= i < |t.nodes| && i + 1 + |sub| == t.cells[i].hi <= |t.nodes|
    requires y.color == t.nodes[i].color && y.value == t.nodes[i].value && y.left == null
    requires y.right == Made(i + 1, sub, t.cells[i].right) && y.parent == p
    requires ClonedAll(t, i + 1, sub, t.cells[i].right, y)
    ensures ClonedFrom(t, i, [y] + sub, i, p)
  {
    var c := t.cells;
    assert [y] + sub == [y] + sub + [];
    assert CellOk(c, t.root, i);
    if c[i].right != NONE { assert CellOk(c, t.root, c[i].right); }
    forall q | i < q < i + 1 + |sub|
      ensures Cloned(t, i, [y] + sub, q, i, p) && (c[q].left == NONE || c[q].left >= i) && c[q].parent >= i
    {
      assert Cloned(t, i + 1, sub, q, c[i].right, y);
      CloneGrowsNew(t, i, y, sub, [], q, i, p);
    }
  }

  /** The fields of made[0] once its left link leads to y, and of every other copy as before. */
  ghost predicate ClonedBeside<V(0)>(t: View<V>, j: int, made: seq<Node<V>>, y: Node<V>, top: int, p: Node<V>)
    requires |t.nodes| == |t.cells| && 0 <= j && j + |made| <= |t.nodes| && made != []
    reads t.nodes, made
  {
    && made[0].color == t.nodes[j].color && made[0].value == t.nodes[j].value && made[0].left == y
    && made[0].right == Made(j, made, t.cells[j].right)
    && made[0].parent == (if j == top then p else Made(j, made, t.cells[j].parent))
    && (forall q :: j < q < j + |made| ==> Cloned(t, j, made, q, top, p))
    && (forall q :: j < q < j + |made| ==> t.cells[q].left == NONE || t.cells[q].left >= j)
    && (forall q :: j <= q < j + |made| && q != top ==> t.cells[q].parent >= j)
  }

  /** One turn of the loop down the left spine: y copies the left child l of position j, sub its right subtree. */
  ghost predicate SpineStep<V(0)>(t: View<V>, j: int, l: int, y: Node<V>, sub: seq<Node<V>>, made: seq<Node<V>>,
                                  top: int, p: Node<V>)
    requires |t.nodes| == |t.cells| && 0 <= l < j <= top < j + |made| <= |t.nodes|
    reads t.nodes, made, sub, y
  {
    && t.cells[j].left == l && |sub| == j - l - 1
    && y.color == t.nodes[l].color && y.value == t.nodes[l].value && y.left == null
    && y.right == Made(l + 1, sub, t.cells[l].right) && y.parent == made[0]
    && ClonedAll(t, l + 1, sub, t.cells[l].right, y)
    && ClonedBeside(t, j, made, y, top, p)
  }

  lemma CloneGrowsAt<V(0)>(t: View<V>, j: int, l: int, y: Node<V>, sub: seq<Node<V>>, made: seq<Node<V>>, top: int,
                           p: Node<V>, q: int)
    requires t.Tree() && 0 <= l < j <= top < j + |made| <= |t.nodes| && l < q < j + |made|
    requires SpineStep(t, j, l, y, sub, made, top, p)
    ensures Cloned(t, l, [y] + sub + made, q, top, p)
    ensures (t.cells[q].left == NONE || t.cells[q].left >= l) && (q != top ==> t.cells[q].parent >= l)
  {
    var c := t.cells;
    assert CellOk(c, t.root, q) && CellOk(c, t.root, j) && CellOk(c, t.root, l);
    if q < j {
      assert Cloned(t, l + 1, sub, q, c[l].right, y);
      CloneGrowsNew(t, l, y, sub, made, q, top, p);
    } else {
      if q > j { assert Cloned(t, j, made, q, top, p); }
      CloneGrowsOld(t, j, l, [y] + sub, made, q, top, p);
    }
  }

  lemma CloneGrows<V(0)>(t: View<V>, j: int, l: int, y: Node<V>, sub: seq<Node<V>>, made: seq<Node<V>>, top: int,
                         p: Node<V>)
    requires t.Tree() && 0 <= l < j <= top < j + |made| <= |t.nodes|
    requires SpineStep(t, j, l, y, sub, made, top, p)
    ensures ClonedFrom(t, l, [y] + sub + made, top, p)
  {
    var c, all := t.cells, [y] + sub + made;
    assert Cloned(t, l, all, l, top, p) && c[l].parent >= l by {
      assert CellOk(c, t.root, l) && CellOk(c, t.root, j);
      if c[l].right != NONE { assert CellOk(c, t.root, c[l].right); }
    }
    forall q | l < q < l + |all|
      ensures Cloned(t, l, all, q, top, p) && (c[q].left == NONE || c[q].left >= l) && (q != top ==> c[q].parent >= l)
    {
      CloneGrowsAt(t, j, l, y, sub, made, top, p, q);
    }
  }

  lemma SpineGrown<V(0)>(t: View<V>, j: int, l: int, y: Node<V>, sub: seq<Node<V>>, made: seq<Node<V>>, top: int,
                         p: Node<V>)
    requires t.Tree() && 0 <= l < j <= top < j + |made| <= |t.nodes|
    requires SpineStep(t, j, l, y, sub, made, top, p)
    requires AllDifferent([y] + sub) && AllDifferent(made) && forall n :: n in [y] + sub ==> n !in made
    ensures ClonedFrom(t, l, [y] + sub + made, top, p) && AllDifferent([y] + sub + made)
    ensures Members([y] + sub + made) == Members([y] + sub) + Members(made)
  {
    CloneGrows(t, j, l, y, sub, made, top, p);
    DifferentJoined([y] + sub, made);
  }

  /** A complete copy hung from a header is a tree of the same shape. */
  lemma ClonedTree<V(0)>(t: View<V>, made: seq<Node<V>>, header: Node<V>)
    requires t.Tree() && |made| == |t.nodes| && AllDifferent(made) && header !in made
    requires ClonedAll(t, 0, made, t.root, header)
    ensures t.(header := header, nodes := made).Tree()
  {
    forall q | 0 <= q < |made| ensures t.(header := header, nodes := made).Linked(q) {
      assert Cloned(t, 0, made, q, t.root, header) && CellOk(t.cells, t.root, q);
    }
  }
}
