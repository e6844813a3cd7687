/** The shape of a binary tree, described by in-order positions instead of pointers.

    Position i of a tree with n nodes is the i-th node of the in-order walk.  A cell
    gives, for its position, the half-open range [lo, hi) of positions in its
    subtree and the positions of its children and its parent (NONE where there is
    no such node).  Every condition is local to a cell and its neighbours, so the
    pointer code can be checked one node at a time, without recursion. */
module Layout {

  const NONE: int := -1

  datatype Cell = Cell(lo: int, hi: int, left: int, right: int, parent: int)

  predicate LeftOk(c: seq<Cell>, i: int)
    requires 0 <= i < |c|
  {
    if c[i].lo == i then c[i].left == NONE
    else 0 <= c[i].left < i && c[c[i].left].lo == c[i].lo && c[c[i].left].hi == i && c[c[i].left].parent == i
  }

  predicate RightOk(c: seq<Cell>, i: int)
    requires 0 <= i < |c|
  {
    if c[i].hi == i + 1 then c[i].right == NONE
    else i < c[i].right < |c| && c[c[i].right].lo == i + 1 && c[c[i].right].hi == c[i].hi && c[c[i].right].parent == i
  }

  predicate ParentOk(c: seq<Cell>, root: int, i: int)
    requires 0 <= i < |c|
  {
    if i == root then c[i].parent == NONE
    else 0 <= c[i].parent < |c| && (c[c[i].parent].left == i || c[c[i].parent].right == i)
  }

  predicate CellOk(c: seq<Cell>, root: int, i: int)
    requires 0 <= i < |c|
  {
    && 0 <= c[i].lo <= i < c[i].hi <= |c|
    && LeftOk(c, i)
    && RightOk(c, i)
    && ParentOk(c, root, i)
  }

  predicate RootOk(c: seq<Cell>, root: int) {
    if c == [] then root == NONE
    else 0 <= root < |c| && c[root].lo == 0 && c[root].hi == |c|
  }

  /** The cells describe one binary tree that holds every position. */
  predicate Wf(c: seq<Cell>, root: int) {
    && RootOk(c, root)
    && forall i :: 0 <= i < |c| ==> CellOk(c, root, i)
  }

  // ---------- Leaf insertion ----------

  /** Position of old node j once a new node has been put at position k. */
  function Shift(k: int, j: int): int {
    if j >= k then j + 1 else j
  }

  function Unshift(k: int, i: int): int {
    if i > k then i - 1 else i
  }

  /** Old node j after a new leaf at position k became the left child of old node k. */
  function LeftCell(c: seq<Cell>, k: int, j: int): Cell
    requires 0 <= j < |c|
  {
    Cell(if c[j].lo <= k then c[j].lo else c[j].lo + 1,
         if c[j].hi <= k then c[j].hi else c[j].hi + 1,
         if j == k then k else Shift(k, c[j].left),
         Shift(k, c[j].right),
         Shift(k, c[j].parent))
  }

  /** Old node j after a new leaf at position k became the right child of old node k - 1. */
  function RightCell(c: seq<Cell>, k: int, j: int): Cell
    requires 0 <= j < |c|
  {
    Cell(if c[j].lo < k then c[j].lo else c[j].lo + 1,
         if c[j].hi < k then c[j].hi else c[j].hi + 1,
         Shift(k, c[j].left),
         if j == k - 1 then k else Shift(k, c[j].right),
         Shift(k, c[j].parent))
  }

  function InsertLeft(c: seq<Cell>, k: int): seq<Cell>
    requires 0 <= k < |c|
  {
    seq(|c| + 1, i requires 0 <= i < |c| + 1 =>
      if i == k then Cell(k, k + 1, NONE, NONE, k + 1) else LeftCell(c, k, Unshift(k, i)))
  }

  function InsertRight(c: seq<Cell>, k: int): seq<Cell>
    requires 0 < k <= |c|
  {
    seq(|c| + 1, i requires 0 <= i < |c| + 1 =>
      if i == k then Cell(k, k + 1, NONE, NONE, k - 1) else RightCell(c, k, Unshift(k, i)))
  }

  lemma InsertLeftKeepsLeft(c: seq<Cell>, root: int, k: int, j: int)
    requires Wf(c, root) && 0 <= k < |c| && c[k].left == NONE && 0 <= j < |c|
    ensures LeftOk(InsertLeft(c, k), Shift(k, j))
  {
    var d := InsertLeft(c, k);
    assert CellOk(c, root, k) && CellOk(c, root, j);
    assert d[Shift(k, j)] == LeftCell(c, k, j);
    if c[j].left != NONE { assert d[Shift(k, c[j].left)] == LeftCell(c, k, c[j].left); }
  }

  lemma InsertLeftKeepsRight(c: seq<Cell>, root: int, k: int, j: int)
    requires Wf(c, root) && 0 <= k < |c| && c[k].left == NONE && 0 <= j < |c|
    ensures RightOk(InsertLeft(c, k), Shift(k, j))
  {
    var d := InsertLeft(c, k);
    assert CellOk(c, root, k) && CellOk(c, root, j);
    assert d[Shift(k, j)] == LeftCell(c, k, j);
    if c[j].right != NONE { assert d[Shift(k, c[j].right)] == LeftCell(c, k, c[j].right); }
  }

  lemma InsertLeftKeepsParent(c: seq<Cell>, root: int, k: int, j: int)
    requires Wf(c, root) && 0 <= k < |c| && c[k].left == NONE && 0 <= j < |c|
    ensures ParentOk(InsertLeft(c, k), Shift(k, root), Shift(k, j))
  {
    var d := InsertLeft(c, k);
    assert CellOk(c, root, k) && CellOk(c, root, j);
    assert d[Shift(k, j)] == LeftCell(c, k, j);
    if c[j].parent != NONE { assert d[Shift(k, c[j].parent)] == LeftCell(c, k, c[j].parent); }
  }

  lemma InsertLeftWf(c: seq<Cell>, root: int, k: int)
    requires Wf(c, root) && 0 <= k < |c| && c[k].left == NONE
    ensures Wf(InsertLeft(c, k), Shift(k, root))
  {
    var d := InsertLeft(c, k);
    assert CellOk(c, root, k);
    forall i | 0 <= i < |d| ensures CellOk(d, Shift(k, root), i) {
      if i != k {
        var j := Unshift(k, i);
        assert CellOk(c, root, j) && d[i] == LeftCell(c, k, j);
        InsertLeftKeepsLeft(c, root, k, j);
        InsertLeftKeepsRight(c, root, k, j);
        InsertLeftKeepsParent(c, root, k, j);
      }
    }
    assert d[Shift(k, root)] == LeftCell(c, k, root);
  }

  lemma InsertRightKeepsLeft(c: seq<Cell>, root: int, k: int, j: int)
    requires Wf(c, root) && 0 < k <= |c| && c[k - 1].right == NONE && 0 <= j < |c|
    ensures LeftOk(InsertRight(c, k), Shift(k, j))
  {
    var d := InsertRight(c, k);
    assert CellOk(c, root, k - 1) && CellOk(c, root, j);
    assert d[Shift(k, j)] == RightCell(c, k, j);
    if c[j].left != NONE { assert d[Shift(k, c[j].left)] == RightCell(c, k, c[j].left); }
  }

  lemma InsertRightKeepsRight(c: seq<Cell>, root: int, k: int, j: int)
    requires Wf(c, root) && 0 < k <= |c| && c[k - 1].right == NONE && 0 <= j < |c|
    ensures RightOk(InsertRight(c, k), Shift(k, j))
  {
    var d := InsertRight(c, k);
    assert CellOk(c, root, k - 1) && CellOk(c, root, j);
    assert d[Shift(k, j)] == RightCell(c, k, j);
    if c[j].right != NONE { assert d[Shift(k, c[j].right)] == RightCell(c, k, c[j].right); }
  }

  lemma InsertRightKeepsParent(c: seq<Cell>, root: int, k: int, j: int)
    requires Wf(c, root) && 0 < k <= |c| && c[k - 1].right == NONE && 0 <= j < |c|
    ensures ParentOk(InsertRight(c, k), Shift(k, root), Shift(k, j))
  {
    var d := InsertRight(c, k);
    assert CellOk(c, root, k - 1) && CellOk(c, root, j);
    assert d[Shift(k, j)] == RightCell(c, k, j);
    if c[j].parent != NONE { assert d[Shift(k, c[j].parent)] == RightCell(c, k, c[j].parent); }
  }

  lemma InsertRightWf(c: seq<Cell>, root: int, k: int)
    requires Wf(c, root) && 0 < k <= |c| && c[k - 1].right == NONE
    ensures Wf(InsertRight(c, k), Shift(k, root))
  {
    var d := InsertRight(c, k);
    assert CellOk(c, root, k - 1);
    forall i | 0 <= i < |d| ensures CellOk(d, Shift(k, root), i) {
      if i != k {
        var j := Unshift(k, i);
        assert CellOk(c, root, j) && d[i] == RightCell(c, k, j);
        InsertRightKeepsLeft(c, root, k, j);
        InsertRightKeepsRight(c, root, k, j);
        InsertRightKeepsParent(c, root, k, j);
      }
    }
    assert d[Shift(k, root)] == RightCell(c, k, root);
  }

  // ---------- Rotation ----------

  /** Every link to x becomes a link to y. */
  function Redirect(x: int, y: int, link: int): int {
    if link == x then y else link
  }

  /** Position x trades places with its right child y = c[x].right; the cell of position j. */
  function RotatedLeft(c: seq<Cell>, x: int, j: int): Cell
    requires 0 <= x < |c| && 0 <= c[x].right < |c| && 0 <= j < |c|
  {
    var y := c[x].right;
    if j == x then Cell(c[x].lo, y, c[x].left, c[y].left, y)
    else if j == y then Cell(c[x].lo, c[y].hi, x, c[y].right, c[x].parent)
    else Cell(c[j].lo, c[j].hi, Redirect(x, y, c[j].left), Redirect(x, y, c[j].right),
              if j == c[y].left then x else c[j].parent)
  }

  /** Position x trades places with its left child y = c[x].left; the cell of position j. */
  function RotatedRight(c: seq<Cell>, x: int, j: int): Cell
    requires 0 <= x < |c| && 0 <= c[x].left < |c| && 0 <= j < |c|
  {
    var y := c[x].left;
    if j == x then Cell(y + 1, c[x].hi, c[y].right, c[x].right, y)
    else if j == y then Cell(c[y].lo, c[x].hi, c[y].left, x, c[x].parent)
    else Cell(c[j].lo, c[j].hi, Redirect(x, y, c[j].left), Redirect(x, y, c[j].right),
              if j == c[y].right then x else c[j].parent)
  }

  function RotateLeft(c: seq<Cell>, x: int): seq<Cell>
    requires 0 <= x < |c| && 0 <= c[x].right < |c|
  {
    seq(|c|, j requires 0 <= j < |c| => RotatedLeft(c, x, j))
  }

  function RotateRight(c: seq<Cell>, x: int): seq<Cell>
    requires 0 <= x < |c| && 0 <= c[x].left < |c|
  {
    seq(|c|, j requires 0 <= j < |c| => RotatedRight(c, x, j))
  }

  lemma RotateLeftKeepsLeft(c: seq<Cell>, root: int, x: int, j: int)
    requires Wf(c, root) && 0 <= x < |c| && 0 <= c[x].right < |c| && 0 <= j < |c|
    ensures LeftOk(RotateLeft(c, x), j)
  {
    var d := RotateLeft(c, x);
    assert CellOk(c, root, x) && CellOk(c, root, c[x].right) && CellOk(c, root, j);
    assert d[j] == RotatedLeft(c, x, j);
    if d[j].left != NONE {
      if c[j].left != NONE { assert CellOk(c, root, c[j].left); }
      assert d[d[j].left] == RotatedLeft(c, x, d[j].left);
    }
  }

  lemma RotateLeftKeepsRight(c: seq<Cell>, root: int, x: int, j: int)
    requires Wf(c, root) && 0 <= x < |c| && 0 <= c[x].right < |c| && 0 <= j < |c|
    ensures RightOk(RotateLeft(c, x), j)
  {
    var d := RotateLeft(c, x);
    assert CellOk(c, root, x) && CellOk(c, root, c[x].right) && CellOk(c, root, j);
    assert d[j] == RotatedLeft(c, x, j);
    if c[c[x].right].left != NONE { assert CellOk(c, root, c[c[x].right].left); }
    if d[j].right != NONE {
      if c[j].right != NONE { assert CellOk(c, root, c[j].right); }
      assert d[d[j].right] == RotatedLeft(c, x, d[j].right);
    }
  }

  lemma RotateLeftKeepsParent(c: seq<Cell>, root: int, x: int, j: int)
    requires Wf(c, root) && 0 <= x < |c| && 0 <= c[x].right < |c| && 0 <= j < |c|
    ensures ParentOk(RotateLeft(c, x), Redirect(x, c[x].right, root), j)
  {
    var d := RotateLeft(c, x);
    assert CellOk(c, root, x) && CellOk(c, root, c[x].right) && CellOk(c, root, j);
    assert d[j] == RotatedLeft(c, x, j);
    if d[j].parent != NONE {
      if c[j].parent != NONE { assert CellOk(c, root, c[j].parent); }
      assert d[d[j].parent] == RotatedLeft(c, x, d[j].parent);
    }
  }

  lemma RotateLeftWf(c: seq<Cell>, root: int, x: int)
    requires Wf(c, root) && 0 <= x < |c| && c[x].right != NONE
    ensures 0 <= c[x].right < |c|
    ensures Wf(RotateLeft(c, x), Redirect(x, c[x].right, root))
  {
    assert CellOk(c, root, x) && CellOk(c, root, c[x].right);
    forall j | 0 <= j < |c| ensures CellOk(RotateLeft(c, x), Redirect(x, c[x].right, root), j) {
      assert CellOk(c, root, j);
      RotateLeftKeepsLeft(c, root, x, j);
      RotateLeftKeepsRight(c, root, x, j);
      RotateLeftKeepsParent(c, root, x, j);
    }
  }

  lemma RotateRightKeepsLeft(c: seq<Cell>, root: int, x: int, j: int)
    requires Wf(c, root) && 0 <= x < |c| && 0 <= c[x].left < |c| && 0 <= j < |c|
    ensures LeftOk(RotateRight(c, x), j)
  {
    var d := RotateRight(c, x);
    assert CellOk(c, root, x) && CellOk(c, root, c[x].left) && CellOk(c, root, j);
    assert d[j] == RotatedRight(c, x, j);
    if c[c[x].left].right != NONE { assert CellOk(c, root, c[c[x].left].right); }
    if d[j].left != NONE {
      if c[j].left != NONE { assert CellOk(c, root, c[j].left); }
      assert d[d[j].left] == RotatedRight(c, x, d[j].left);
    }
  }

  lemma RotateRightKeepsRight(c: seq<Cell>, root: int, x: int, j: int)
    requires Wf(c, root) && 0 <= x < |c| && 0 <= c[x].left < |c| && 0 <= j < |c|
    ensures RightOk(RotateRight(c, x), j)
  {
    var d := RotateRight(c, x);
    assert CellOk(c, root, x) && CellOk(c, root, c[x].left) && CellOk(c, root, j);
    assert d[j] == RotatedRight(c, x, j);
    if d[j].right != NONE {
      if c[j].right != NONE { assert CellOk(c, root, c[j].right); }
      assert d[d[j].right] == RotatedRight(c, x, d[j].right);
    }
  }

  lemma RotateRightKeepsParent(c: seq<Cell>, root: int, x: int, j: int)
    requires Wf(c, root) && 0 <= x < |c| && 0 <= c[x].left < |c| && 0 <= j < |c|
    ensures ParentOk(RotateRight(c, x), Redirect(x, c[x].left, root), j)
  {
    var d := RotateRight(c, x);
    assert CellOk(c, root, x) && CellOk(c, root, c[x].left) && CellOk(c, root, j);
    assert d[j] == RotatedRight(c, x, j);
    if d[j].parent != NONE {
      if c[j].parent != NONE { assert CellOk(c, root, c[j].parent); }
      assert d[d[j].parent] == RotatedRight(c, x, d[j].parent);
    }
  }

  lemma RotateRightWf(c: seq<Cell>, root: int, x: int)
    requires Wf(c, root) && 0 <= x < |c| && c[x].left != NONE
    ensures 0 <= c[x].left < |c|
    ensures Wf(RotateRight(c, x), Redirect(x, c[x].left, root))
  {
    assert CellOk(c, root, x) && CellOk(c, root, c[x].left);
    forall j | 0 <= j < |c| ensures CellOk(RotateRight(c, x), Redirect(x, c[x].left, root), j) {
      assert CellOk(c, root, j);
      RotateRightKeepsLeft(c, root, x, j);
      RotateRightKeepsRight(c, root, x, j);
      RotateRightKeepsParent(c, root, x, j);
    }
  }

  // ---------- Neighbours ----------

  /** Where a subtree ends, its last position has no right child. */
  lemma {:induction false} LastHasNoRight(c: seq<Cell>, root: int, j: int)
    requires Wf(c, root) && 0 <= j < |c|
    ensures 0 < c[j].hi <= |c| && c[c[j].hi - 1].right == NONE
    decreases |c| - j
  {
    assert CellOk(c, root, j);
    if c[j].right == NONE {
    } else {
      LastHasNoRight(c, root, c[j].right);
    }
  }

  /** Of two neighbouring positions, the first has no right child or the second no left child. */
  lemma GapIsFree(c: seq<Cell>, root: int, i: int)
    requires Wf(c, root) && 0 < i < |c|
    ensures c[i - 1].right == NONE || c[i].left == NONE
  {
    assert CellOk(c, root, i);
    if c[i].left != NONE { LastHasNoRight(c, root, c[i].left); }
  }

  /** Subtrees nest: a position inside a subtree has its whole range and, below the top, its parent there. */
  lemma {:induction false} Nested(c: seq<Cell>, root: int, i: int, q: int)
    requires Wf(c, root) && 0 <= i < |c| && c[i].lo <= q < c[i].hi
    ensures 0 <= q < |c| && c[i].lo <= c[q].lo && c[q].hi <= c[i].hi
    ensures q != i ==> c[i].lo <= c[q].parent < c[i].hi
    decreases c[i].hi - c[i].lo
  {
    assert CellOk(c, root, i);
    if q < i {
      assert CellOk(c, root, c[i].left);
      Nested(c, root, c[i].left, q);
    } else if q > i {
      assert CellOk(c, root, c[i].right);
      Nested(c, root, c[i].right, q);
    }
  }
}
