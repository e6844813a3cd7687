/** Handles stored inside counted objects (oscl_shared_ptr.h, oscl_refcounter_memfrag.h): releasing
    one reference can destroy an object, whose own handles then release theirs, and so on.  Bind
    and assignment read their argument after the release; this module says when it is still there. */
module HandleWeb {

  const NONE: int := -1

  /** target: the object whose counter the handle is attached to; home: the object the handle is
      stored in.  NONE if there is none. */
  datatype Slot = Slot(target: int, home: int)

  datatype Web = Web(objs: set<int>, slots: map<nat, Slot>)

  predicate WellFormed(w: Web) {
    NONE !in w.objs && forall h :: h in w.slots ==> w.slots[h].home == NONE || w.slots[h].home in w.objs
  }

  /** No handle is attached to the object: its count is zero. */
  predicate Unheld(w: Web, c: int) {
    c in w.objs && forall h :: h in w.slots ==> w.slots[h].target != c
  }

  /** The object goes, and the handles stored in it with it. */
  function Destroyed(w: Web, c: int): Web {
    Web(w.objs - {c}, map h | h in w.slots && w.slots[h].home != c :: w.slots[h])
  }

  /** Objects whose count is zero are destroyed in the given order until none is left. */
  ghost predicate Collapses(w: Web, order: seq<int>, w': Web)
    decreases |order|
  {
    if order == [] then w' == w && forall c :: c in w.objs ==> !Unheld(w, c)
    else Unheld(w, order[0]) && Collapses(Destroyed(w, order[0]), order[1..], w')
  }

  /** The destruction always comes to an end. */
  lemma CollapseEnds(w: Web) returns (order: seq<int>, w': Web)
    ensures Collapses(w, order, w')
    decreases |w.objs|
  {
    if c :| c in w.objs && Unheld(w, c) {
      order, w' := CollapseEnds(Destroyed(w, c));
      assert ([c] + order)[1..] == order;
      order := [c] + order;
    } else {
      order, w' := [], w;
    }
  }

  /** Every handle attached to c is stored in an object of lower rank. */
  ghost predicate RankOk(w: Web, rank: map<int, nat>, c: int)
    requires c in rank
  {
    forall h :: h in w.slots && w.slots[h].target == c ==> w.slots[h].home in rank && rank[w.slots[h].home] < rank[c]
  }

  ghost predicate Ranks(w: Web, rank: map<int, nat>) {
    rank.Keys <= w.objs && forall c {:trigger RankOk(w, rank, c)} :: c in rank ==> RankOk(w, rank, c)
  }

  /** Only objects that go before it hold on to c. */
  ghost predicate Doomed(w: Web, c: int) {
    exists rank :: Ranks(w, rank) && c in rank
  }

  lemma {:induction false} CollapseOnlyRemoves(w: Web, order: seq<int>, w': Web)
    requires Collapses(w, order, w')
    ensures w'.objs <= w.objs
    decreases |order|
  {
    if order == [] {
    } else {
      CollapseOnlyRemoves(Destroyed(w, order[0]), order[1..], w');
    }
  }

  lemma DoomedBefore(w: Web, d: int, c: int)
    requires Unheld(w, d) && Doomed(Destroyed(w, d), c)
    ensures Doomed(w, c)
  {
    var rank :| Ranks(Destroyed(w, d), rank) && c in rank;
    var rank' := (map x | x in rank :: rank[x] + 1)[d := 0];
    forall x {:trigger RankOk(w, rank', x)} | x in rank' ensures RankOk(w, rank', x) {
      if x != d {
        assert RankOk(Destroyed(w, d), rank, x);
        forall h | h in w.slots && w.slots[h].target == x
          ensures w.slots[h].home in rank' && rank'[w.slots[h].home] < rank'[x]
        {
          assert w.slots[h].home != d ==> h in Destroyed(w, d).slots;
        }
      }
    }
    assert Ranks(w, rank');
  }

  lemma DoomedAfter(w: Web, d: int, c: int)
    requires Unheld(w, d) && Doomed(w, c) && c != d
    ensures Doomed(Destroyed(w, d), c)
  {
    var rank :| Ranks(w, rank) && c in rank;
    var w1, rank' := Destroyed(w, d), rank - {d};
    forall x {:trigger RankOk(w1, rank', x)} | x in rank' ensures RankOk(w1, rank', x) { assert RankOk(w, rank, x); }
    assert Ranks(w1, rank');
  }

  /** With nothing of count zero nothing is doomed: the lowest rank would be unheld. */
  lemma {:induction false} NothingDoomed(w: Web, rank: map<int, nat>, c: int)
    requires NONE !in w.objs && Ranks(w, rank) && c in rank
    ensures exists d :: d in w.objs && Unheld(w, d)
    decreases rank[c]
  {
    assert RankOk(w, rank, c);
    if Unheld(w, c) {
    } else {
      var h :| h in w.slots && w.slots[h].target == c;
      NothingDoomed(w, rank, w.slots[h].home);
    }
  }

  /** Whatever the order of destruction, exactly the doomed objects go. */
  lemma {:induction false} CollapseExact(w: Web, order: seq<int>, w': Web, c: int)
    requires NONE !in w.objs && Collapses(w, order, w') && c in w.objs
    ensures c !in w'.objs <==> Doomed(w, c)
    decreases |order|
  {
    if order == [] {
      if rank :| Ranks(w, rank) && c in rank { NothingDoomed(w, rank, c); }
    } else {
      var d, w1 := order[0], Destroyed(w, order[0]);
      if c == d {
        CollapseOnlyRemoves(w1, order[1..], w');
        assert RankOk(w, map[c := 0], c);
      } else {
        CollapseExact(w1, order[1..], w', c);
        if Doomed(w, c) { DoomedAfter(w, d, c); } else if Doomed(w1, c) { DoomedBefore(w, d, c); }
      }
    }
  }

  /** A handle stays exactly as long as the object it is stored in. */
  lemma {:induction false} SlotSurvives(w: Web, order: seq<int>, w': Web, h: nat)
    requires WellFormed(w) && Collapses(w, order, w') && h in w.slots
    ensures h in w'.slots <==> w.slots[h].home == NONE || w.slots[h].home in w'.objs
    ensures h in w'.slots ==> w'.slots[h] == w.slots[h]
    decreases |order|
  {
    if order == [] {
    } else {
      var w1 := Destroyed(w, order[0]);
      if w.slots[h].home == order[0] {
        CollapseOnlyRemoves(w1, order[1..], w');
        SlotsOnlyGo(w1, order[1..], w', h);
      } else {
        SlotSurvives(w1, order[1..], w', h);
      }
    }
  }

  lemma {:induction false} SlotsOnlyGo(w: Web, order: seq<int>, w': Web, h: nat)
    requires Collapses(w, order, w') && h !in w.slots
    ensures h !in w'.slots
    decreases |order|
  {
    if order == [] {
    } else {
      SlotsOnlyGo(Destroyed(w, order[0]), order[1..], w', h);
    }
  }

  /** The object that a surviving handle is attached to survives with it. */
  lemma {:induction false} TargetSurvives(w: Web, order: seq<int>, w': Web, h: nat)
    requires Collapses(w, order, w') && h in w'.slots && h in w.slots && w.slots[h].target in w.objs
    ensures w.slots[h].target in w'.objs
    decreases |order|
  {
    if order == [] {
    } else {
      var w1 := Destroyed(w, order[0]);
      if h !in w1.slots { SlotsOnlyGo(w1, order[1..], w', h); }
      TargetSurvives(w1, order[1..], w', h);
    }
  }

  // ---------- Bind and assignment ----------

  /** Handle a has let go of its counter. */
  function LetGo(w: Web, a: nat): Web
    requires a in w.slots
  {
    w.(slots := w.slots[a := w.slots[a].(target := NONE)])
  }

  /** When handle a is bound to handle b, w' is the state in which b's fields are read and a's are
      written.  Nothing happens before that if the guard at the top says the two are the same. */
  ghost predicate ReadsArgumentIn(w: Web, a: nat, same: bool, order: seq<int>, w': Web)
    requires a in w.slots
  {
    if same then w' == w else Collapses(LetGo(w, a), order, w')
  }

  /** The handle is stored in an object that goes when a lets go. */
  ghost predicate GoesWith(w: Web, a: nat, h: nat)
    requires a in w.slots && h in w.slots
  {
    w.slots[h].home != NONE && Doomed(LetGo(w, a), w.slots[h].home)
  }

  /** Bind and assignment find both handles alive after the release exactly when the guard stops
      them or neither handle is stored in an object that goes with the released reference; the
      object that the argument is attached to is then still there, too. */
  lemma BindIsSafeExactlyWhen(w: Web, a: nat, b: nat, same: bool, order: seq<int>, w': Web)
    requires WellFormed(w) && a in w.slots && b in w.slots && ReadsArgumentIn(w, a, same, order, w')
    ensures a in w'.slots && b in w'.slots <==> same || (!GoesWith(w, a, a) && !GoesWith(w, a, b))
    ensures b in w'.slots && (same || b != a) && w.slots[b].target in w.objs ==> w.slots[b].target in w'.objs
  {
    if !same {
      var w1 := LetGo(w, a);
      forall h | h in w.slots ensures h in w'.slots <==> !GoesWith(w, a, h) {
        SlotSurvives(w1, order, w', h);
        if w.slots[h].home != NONE { CollapseExact(w1, order, w', w.slots[h].home); }
      }
      if b in w'.slots && b != a && w.slots[b].target in w.objs { TargetSurvives(w1, order, w', b); }
    }
  }

  /** Bind to a plain pointer, and Unbind, write the handle's own fields after the release: they
      find it there exactly when it is not stored in an object that goes. */
  lemma WritesAreSafeExactlyWhen(w: Web, a: nat, order: seq<int>, w': Web)
    requires WellFormed(w) && a in w.slots && Collapses(LetGo(w, a), order, w')
    ensures a in w'.slots <==> !GoesWith(w, a, a)
  {
    BindIsSafeExactlyWhen(w, a, a, false, order, w');
  }

  /** Handles that are not stored in counted objects are always safe. */
  lemma OutsideIsSafe(w: Web, a: nat, b: nat, same: bool, order: seq<int>, w': Web)
    requires WellFormed(w) && a in w.slots && b in w.slots && ReadsArgumentIn(w, a, same, order, w')
    requires w.slots[a].home == NONE && w.slots[b].home == NONE
    ensures a in w'.slots && b in w'.slots
  {
    BindIsSafeExactlyWhen(w, a, b, same, order, w');
  }

  /** A second handle from outside on the argument's object makes binding safe. */
  lemma AnotherOwnerIsSafe(w: Web, a: nat, b: nat, k: nat, order: seq<int>, w': Web)
    requires WellFormed(w) && a in w.slots && b in w.slots && ReadsArgumentIn(w, a, false, order, w')
    requires w.slots[a].home == NONE
    requires k in w.slots && k != a && w.slots[k] == Slot(w.slots[b].home, NONE)
    ensures a in w'.slots && b in w'.slots
  {
    BindIsSafeExactlyWhen(w, a, b, false, order, w');
    if w.slots[b].home != NONE { HeldFromOutside(LetGo(w, a), w.slots[b].home, k); }
  }

  lemma HeldFromOutside(w: Web, c: int, k: nat)
    requires NONE !in w.objs && k in w.slots && w.slots[k] == Slot(c, NONE)
    ensures !Doomed(w, c)
  {
    forall rank: map<int, nat> ensures !(Ranks(w, rank) && c in rank) { var ok := c in rank && RankOk(w, rank, c); }
  }

  /** The head of a list, its only owner, bound to the handle stored in the first element: the
      element goes, and the handle is read after that. */
  lemma NextOfHeadIsGone() returns (w: Web, order: seq<int>, w': Web)
    ensures WellFormed(w) && w.slots == map[0 := Slot(0, NONE), 1 := Slot(1, 0)] && w.objs == {0, 1}
    ensures ReadsArgumentIn(w, 0, false, order, w') && 1 !in w'.slots
  {
    w := Web({0, 1}, map[0 := Slot(0, NONE), 1 := Slot(1, 0)]);
    var w1 := LetGo(w, 0);
    var w2 := Destroyed(w1, 0);
    w' := Destroyed(w2, 1);
    order := [0, 1];
    assert Unheld(w1, 0) && Unheld(w2, 1) && w'.objs == {};
    assert order[1..] == [1] && order[1..][1..] == [];
    assert Collapses(w', [], w') && Collapses(w2, [1], w');
  }
}
