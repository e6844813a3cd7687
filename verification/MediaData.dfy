/** BufferState, BufFragGroup and MediaData (oscl_media_data.h): fragments in an array, with
    counted references to the buffers they lie in. */
module MediaData {
  import opened Fragments
  import opened Words

  /** The statuses, and OVERRUN, which is none of them: the call writes past the end of the arrays,
      and nothing is known from there on. */
  datatype Status = BFG_SUCCESS | TOO_MANY_FRAGS | NOT_ENOUGH_SPACE | EMPTY_FRAGMENT | OVERRUN

  /** The call refused, and changed nothing. */
  predicate Refused(status: Status) {
    status in {TOO_MANY_FRAGS, NOT_ENOUGH_SPACE, EMPTY_FRAGMENT}
  }

  /** memmove by one place: what is in places at to n - 1 moves up. */
  method MoveUp<T>(a: array<T>, at: nat, n: nat)
    requires at < n < a.Length
    modifies a
    ensures a[..n + 1] == old(a[..at + 1]) + old(a[at..n])
  {
    var k := n;
    while k > at
      invariant at <= k <= n
      invariant forall q :: 0 <= q <= n ==> a[q] == if k < q then old(a[q - 1]) else old(a[q])
    {
      a[k] := a[k - 1];
      k := k - 1;
    }
  }

  /** x at a place whose contents have moved up is x placed there. */
  lemma MovedUp<T>(s: seq<T>, x: T, at: nat)
    requires at < |s|
    ensures (s[..at + 1] + s[at..])[at := x] == Placed(s, x, at, false)
  {
  }

  /** A free place holds neither bytes nor a reference. */
  ghost predicate FreeAt(fs: seq<Fragment>, ss: seq<BufferState?>, i: nat)
    requires i < |fs| == |ss|
  {
    fs[i].ptr == Null ==> fs[i].len == 0 && ss[i] == null
  }

  ghost predicate FreeOk(fs: seq<Fragment>, ss: seq<BufferState?>) {
    |fs| == |ss| && forall i {:trigger FreeAt(fs, ss, i)} :: 0 <= i < |fs| ==> FreeAt(fs, ss, i)
  }

  lemma PlacedKeepsFree(fs: seq<Fragment>, ss: seq<BufferState?>, f: Fragment, s: BufferState?, off: int)
    requires FreeOk(fs, ss) && f.ptr != Null
    ensures FreeOk(Placed(fs, f, off, IsFree(fs, off)), Placed(ss, s, off, IsFree(fs, off)))
    ensures IsFree(fs, off) ==> fs[off].len == 0
  {
    var free := IsFree(fs, off);
    var fs', ss' := Placed(fs, f, off, free), Placed(ss, s, off, free);
    if free { assert FreeAt(fs, ss, off); }
    forall i {:trigger FreeAt(fs', ss', i)} | 0 <= i < |fs'| ensures FreeAt(fs', ss', i) {
      var p := Place(off, |fs|);
      if i < p { assert FreeAt(fs, ss, i); }
      if i > p { assert FreeAt(fs, ss, if free then i else i - 1); }
    }
  }

  /** A placed reference counts once more; a free place had none. */
  lemma PlacedHolds(fs: seq<Fragment>, ss: seq<BufferState?>, s: BufferState?, off: int, t: BufferState)
    requires FreeOk(fs, ss)
    ensures multiset(Placed(ss, s, off, IsFree(fs, off)))[t] == multiset(ss)[t] + if t == s then 1 else 0
  {
    if IsFree(fs, off) { assert FreeAt(fs, ss, off); }
    PlacedMultiset(ss, s, off, IsFree(fs, off));
  }

  /** Where a fragment and the state it comes with go: into the place at off if its pointer is NULL,
      before what is there if not, and to the end if off is no place in use. */
  lemma PlacedWhere(fs: seq<Fragment>, ss: seq<BufferState?>, frag: Fragment, state: BufferState?, off: int)
    requires |fs| == |ss|
    ensures var free := 0 <= off < |fs| && fs[off].ptr == Null;
            && PutIn(fs, frag, off, free, Placed(fs, frag, off, IsFree(fs, off)))
            && PutIn(ss, state, off, free, Placed(ss, state, off, IsFree(fs, off)))
  {
    PlacedIsPut(fs, frag, off, IsFree(fs, off));
    PlacedIsPut(ss, state, off, IsFree(fs, off));
  }

  lemma PlacedKnown(ss: seq<BufferState?>, s: BufferState?, off: int, free: bool, t: BufferState?)
    ensures t in Placed(ss, s, off, free) ==> t in ss || t == s
  {
  }

  /** Who holds a buffer state, and how often its buffer was released. */
  datatype Account = Account(holders: multiset<BufFragGroup>, released: nat)

  /** What is left when all of one holder's shares are gone is nothing exactly if they were all. */
  lemma OnlyHolder(holders: multiset<BufFragGroup>, g: BufFragGroup)
    ensures holders != multiset{} && holders[g := 0] == multiset{} <==> |holders| == holders[g] > 0
  {
    assert |holders[g := 0]| == |holders| - holders[g];
  }

  class BufferState {
    var refcount: int
    var ptr: Pointer
    /** Whether there is a manager, or else a function, to be told when the buffer is free. */
    const bufMgr: bool
    const freeFunction: bool
    /** The groups that hold this state, once for each place that does. */
    ghost var holders: multiset<BufFragGroup>
    /** How often the buffer was released. */
    ghost var released: nat

    constructor (ptr: Pointer, bufMgr: bool, freeFunction: bool)
      ensures refcount == 0 && holders == multiset{} && released == 0 && this.ptr == ptr
      ensures this.bufMgr == bufMgr && this.freeFunction == freeFunction
    {
      refcount, this.ptr, this.bufMgr, this.freeFunction := 0, ptr, bufMgr, freeFunction;
      holders, released := multiset{}, 0;
    }

    /** The last of its holders has let go, and there is someone to tell. */
    ghost predicate Freed(before: multiset<BufFragGroup>, after: multiset<BufFragGroup>) {
      before != multiset{} && after == multiset{} && (bufMgr || freeFunction)
    }

    /** All of g's references are gone; the buffer was released just then if they were the last. */
    ghost predicate LostGroup(g: BufFragGroup, before: Account)
      reads this
    {
      holders == before.holders[g := 0] && released == before.released + if Freed(before.holders, holders) then 1 else 0
    }

    /** The count is the number of places that hold this state. */
    ghost predicate Exact()
      reads this
    {
      refcount == |holders|
    }

    method IncrementRefcnt(ghost g: BufFragGroup)
      requires Exact()
      modifies this`refcount, this`holders
      ensures Exact() && holders == old(holders) + multiset{g} && refcount == old(refcount) + 1
    {
      refcount := refcount + 1;
      holders := holders + multiset{g};
    }

    /** The buffer is released exactly when the last place lets go of it. */
    method DecrementRefcnt(ghost g: BufFragGroup)
      requires Exact() && g in holders
      modifies this
      ensures Exact() && holders == old(holders) - multiset{g} && refcount == old(refcount) - 1
      ensures released == old(released) + if old(refcount) == 1 && (bufMgr || freeFunction) then 1 else 0
      ensures released == old(released) + if Freed(old(holders), holders) then 1 else 0
      ensures ptr == if old(refcount) == 1 && !bufMgr && freeFunction then Null else old(ptr)
    {
      holders := holders - multiset{g};
      refcount := refcount - 1;
      if refcount == 0 {
        if bufMgr {
          released := released + 1;
        } else if freeFunction {
          released := released + 1;
          ptr := Null;
        }
      }
    }
  }

  class BufFragGroup {
    const maxFrags: nat
    const fragments: array<Fragment>
    const bufferStates: array<BufferState?>
    var numFragments: nat
    var length: int

    /** The places in use. */
    function Frags(): (fs: seq<Fragment>)
      requires numFragments <= fragments.Length
      reads this, fragments
    {
      fragments[..numFragments]
    }

    ghost function Slots(): (ss: seq<BufferState?>)
      requires numFragments <= bufferStates.Length
      reads this, bufferStates
    {
      bufferStates[..numFragments]
    }

    ghost predicate Sized()
      reads this
    {
      numFragments <= maxFrags == fragments.Length == bufferStates.Length
    }

    /** length is the sum of the fragments' lengths, on 32 bits; a free place holds nothing. */
    ghost predicate Valid()
      reads this, fragments, bufferStates
    {
      Sized() && length == U32(TotalLen(Frags())) && FreeOk(Frags(), Slots())
    }

    constructor (maxFrags: nat, ghost w: World)
      requires w.Valid()
      modifies w`groups
      ensures Valid() && this.maxFrags == maxFrags && Frags() == [] && Slots() == []
      ensures fresh(fragments) && fresh(bufferStates) && w.Valid() && w.groups == old(w.groups) + {this}
    {
      this.maxFrags := maxFrags;
      fragments := new Fragment[maxFrags](i => Fragment(Null, 0));
      bufferStates := new BufferState?[maxFrags](i => null);
      numFragments, length := 0, 0;
      new;
      forall h {:trigger w.GroupOk(h)} | h in w.groups ensures w.GroupOk(h) { assert old(w.GroupOk(h)); }
      forall s {:trigger w.Counted(s)} | s in w.states ensures w.Counted(s) {
        assert old(w.Counted(s));
        forall h {:trigger h.Holding(s)} | h in w.groups ensures s.holders[h] == h.Holding(s) {
          assert h.Holding(s) == old(h.Holding(s));
        }
      }
      forall h {:trigger w.Apart(this, h)} | h in w.groups ensures w.Apart(this, h) { assert old(w.GroupOk(h)); }
      w.Join(this);
    }

    /** A new fragment at off takes a place that is not in use yet. */
    predicate NeedsRoom(off: int)
      requires Sized()
      reads this, fragments
    {
      !IsFree(Frags(), off)
    }

    /** A place is needed and none is left. */
    predicate Overruns(off: int)
      requires Sized()
      reads this, fragments
    {
      NeedsRoom(off) && numFragments == maxFrags
    }

    /** No place is left, and the one at off, if there is one, is not free. */
    lemma OverrunsWhen(off: int)
      requires Sized()
      ensures Overruns(off) <==> numFragments == maxFrags && !(0 <= off < numFragments && fragments[off].ptr == Null)
    {
    }

    /** The guard of AddFragment lets one fragment too many through: what is placed fits exactly
        when no place is needed or one is left. */
    lemma FitsExactlyWhen(frag: Fragment, off: int)
      requires Sized()
      ensures |Placed(Frags(), frag, off, IsFree(Frags(), off))| <= maxFrags <==> !Overruns(off)
    {
    }

    /** Everything from place at on moves up by one. */
    method MakeRoom(at: nat)
      requires Sized() && at < numFragments < maxFrags
      modifies this`numFragments, fragments, bufferStates
      ensures Sized() && Frags() == old(Frags())[..at + 1] + old(Frags())[at..]
      ensures Slots() == old(Slots())[..at + 1] + old(Slots())[at..]
    {
      ghost var fs := Frags();
      MoveUp(fragments, at, numFragments);
      MoveUp(bufferStates, at, numFragments);
      assert fragments[..numFragments + 1] == fs[..at + 1] + fs[at..];
      numFragments := numFragments + 1;
    }

    method SetPlace(frag: Fragment, state: BufferState?, at: nat)
      requires Sized() && at < numFragments
      modifies fragments, bufferStates
      ensures Sized() && Frags() == old(Frags())[at := frag] && Slots() == old(Slots())[at := state]
    {
      fragments[at] := frag;
      bufferStates[at] := state;
    }

    method Append(frag: Fragment, state: BufferState?)
      requires Sized() && numFragments < maxFrags
      modifies this`numFragments, fragments, bufferStates
      ensures Sized() && Frags() == old(Frags()) + [frag] && Slots() == old(Slots()) + [state]
    {
      fragments[numFragments] := frag;
      bufferStates[numFragments] := state;
      numFragments := numFragments + 1;
    }

    /** The part that AddFragment and AddLocalFragment have in common. */
    method PutAt(frag: Fragment, state: BufferState?, off: int)
      requires Sized() && !Overruns(off)
      modifies this`numFragments, fragments, bufferStates
      ensures Sized() && Frags() == Placed(old(Frags()), frag, off, old(IsFree(Frags(), off)))
      ensures Slots() == Placed(old(Slots()), state, off, old(IsFree(Frags(), off)))
    {
      if 0 <= off < numFragments {
        if fragments[off].ptr != Null {
          MovedUp(Frags(), frag, off);
          MovedUp(Slots(), state, off);
          MakeRoom(off);
        }
        SetPlace(frag, state, off);
        return;
      }
      Append(frag, state);
    }

    /** How many places hold s. */
    ghost function Holding(s: BufferState): nat
      reads this, bufferStates
    {
      if Sized() then multiset(Slots())[s] else 0
    }

    /** The reference that a placed fragment brings along. */
    method Count(state: BufferState?, ghost w: World)
      requires Valid() && this in w.groups && (state != null ==> state in w.states)
      requires w.GroupsOk()
      requires forall s {:trigger w.CountedBut(s, One(state, s))} :: s in w.states ==> w.CountedBut(s, One(state, s))
      modifies (if state == null then {} else {state})`refcount, (if state == null then {} else {state})`holders
      ensures w.Valid() && Valid() && Frags() == old(Frags()) && Slots() == old(Slots())
      ensures forall s {:trigger One(state, s)} :: s in w.states ==> s.holders == old(s.holders) + One(state, s)
      ensures state != null ==> state.refcount == old(state.refcount) + 1
    {
      if state != null {
        assert w.CountedBut(state, One(state, state));
        state.IncrementRefcnt(this);
        assert state.holders == old(state.holders) + One(state, state);
      }
      forall s {:trigger w.Counted(s)} | s in w.states ensures w.Counted(s) {
        assert old(w.CountedBut(s, One(state, s))) && s.holders == old(s.holders) + One(state, s);
        forall h {:trigger h.Holding(s)} | h in w.groups ensures s.holders[h] == h.Holding(s) {
          assert h.Holding(s) == old(h.Holding(s));
        }
      }
    }

    /** The fragment goes in and length goes up. */
    method Enter(frag: Fragment, state: BufferState?, off: int)
      requires Valid() && frag.ptr != Null && !Overruns(off)
      modifies this`numFragments, this`length, fragments, bufferStates
      ensures Valid()
      ensures Frags() == Placed(old(Frags()), frag, off, old(IsFree(Frags(), off)))
      ensures Slots() == Placed(old(Slots()), state, off, old(IsFree(Frags(), off)))
      ensures length == U32(old(length) + frag.len)
    {
      ghost var fs, ss := Frags(), Slots();
      ghost var total := TotalLen(Placed(fs, frag, off, IsFree(fs, off)));
      PlacedKeepsFree(fs, ss, frag, state, off);
      assert U32(length + frag.len) == U32(total) by {
        PlacedTotalLen(fs, frag, off);
        U32Adds(TotalLen(fs), frag.len);
      }
      PutAt(frag, state, off);
      length := U32(length + frag.len);
    }

    /** As Enter, among all groups. */
    method EnterGrouped(frag: Fragment, state: BufferState?, off: int, ghost w: World)
      requires Valid() && w.GroupsOk() && this in w.groups && (state != null ==> state in w.states)
      requires frag.ptr != Null && !Overruns(off)
      modifies this`numFragments, this`length, fragments, bufferStates
      ensures Valid() && w.GroupsOk()
      ensures Frags() == Placed(old(Frags()), frag, off, old(IsFree(Frags(), off)))
      ensures Slots() == Placed(old(Slots()), state, off, old(IsFree(Frags(), off)))
      ensures length == U32(old(length) + frag.len)
    {
      ghost var fs, ss := Frags(), Slots();
      assert w.GroupOk(this);
      Enter(frag, state, off);
      forall t | t in Slots() && t != null ensures t in w.states { PlacedKnown(ss, state, off, IsFree(fs, off), t); }
      forall g {:trigger w.GroupOk(g)} | g in w.groups ensures w.GroupOk(g) {
        if g != this {
          assert w.Apart(g, this);
          assert old(w.GroupOk(g));
        }
      }
    }

    /** As EnterGrouped: the reference is not counted yet. */
    method EnterUncounted(frag: Fragment, state: BufferState?, off: int, ghost w: World)
      requires Valid() && w.Valid() && this in w.groups && (state != null ==> state in w.states)
      requires frag.ptr != Null && !Overruns(off)
      modifies this`numFragments, this`length, fragments, bufferStates
      ensures Valid() && w.GroupsOk()
      ensures forall s {:trigger w.CountedBut(s, One(state, s))} :: s in w.states ==> w.CountedBut(s, One(state, s))
      ensures Frags() == Placed(old(Frags()), frag, off, old(IsFree(Frags(), off)))
      ensures Slots() == Placed(old(Slots()), state, off, old(IsFree(Frags(), off)))
      ensures length == U32(old(length) + frag.len)
    {
      ghost var fs, ss := Frags(), Slots();
      EnterGrouped(frag, state, off, w);
      forall s {:trigger w.CountedBut(s, One(state, s))} | s in w.states ensures w.CountedBut(s, One(state, s)) {
        assert old(w.Counted(s));
        PlacedHolds(fs, ss, state, off, s);
        forall h {:trigger h.Holding(s)} | h in w.groups ensures (s.holders + One(state, s))[h] == h.Holding(s) {
          assert s.holders[h] == old(h.Holding(s));
          if h != this { assert w.Apart(h, this) && h.Holding(s) == old(h.Holding(s)); }
        }
      }
    }

    /** The account of s once the first ii places of this group have let go. */
    ghost predicate LetGo(s: BufferState, ii: nat, before: Account)
      requires Sized() && ii <= numFragments
      reads this, bufferStates, s
    {
      && s.Exact() && before.holders[this] == multiset(Slots())[s]
      && s.holders == before.holders[this := multiset(Slots()[ii..])[s]]
      && s.released == before.released + if s.Freed(before.holders, s.holders) then 1 else 0
    }

    ghost predicate AllLetGo(ii: nat, before: map<BufferState, Account>)
      requires Sized() && ii <= numFragments
      reads this, bufferStates, before.Keys
    {
      forall s {:trigger LetGo(s, ii, before[s])} :: s in before ==> LetGo(s, ii, before[s])
    }

    /** A state that is not in place ii loses nothing there. */
    lemma NotThere(s: BufferState, ii: nat, before: Account)
      requires Sized() && ii < numFragments && bufferStates[ii] != s && LetGo(s, ii, before)
      ensures LetGo(s, ii + 1, before)
    {
      assert Slots()[ii..] == [bufferStates[ii]] + Slots()[ii + 1..];
    }

    lemma HeadCounts(ii: nat, s: BufferState)
      requires Sized() && ii < numFragments && bufferStates[ii] == s
      ensures multiset(Slots()[ii..])[s] == multiset(Slots()[ii + 1..])[s] + 1 <= multiset(Slots())[s]
    {
      assert Slots()[ii..] == [s] + Slots()[ii + 1..] && Slots() == Slots()[..ii] + Slots()[ii..];
    }

    /** The state in place ii loses one reference. */
    method ReleaseThere(s: BufferState, ii: nat, ghost before: Account)
      requires Sized() && ii < numFragments && bufferStates[ii] == s && LetGo(s, ii, before)
      modifies s
      ensures LetGo(s, ii + 1, before)
    {
      HeadCounts(ii, s);
      s.DecrementRefcnt(this);
      assert s.holders == before.holders[this := multiset(Slots()[ii + 1..])[s]];
    }

    /** The reference in place ii goes. */
    method ReleaseAt(ii: nat, ghost before: map<BufferState, Account>)
      requires Sized() && ii < numFragments && (bufferStates[ii] != null ==> bufferStates[ii] in before)
      requires AllLetGo(ii, before)
      modifies if bufferStates[ii] == null then {} else {bufferStates[ii]}
      ensures AllLetGo(ii + 1, before)
    {
      var state := bufferStates[ii];
      if state != null {
        assert LetGo(state, ii, before[state]);
        ReleaseThere(state, ii, before[state]);
      }
      forall s {:trigger LetGo(s, ii + 1, before[s])} | s in before ensures LetGo(s, ii + 1, before[s]) {
        if s != state {
          assert old(LetGo(s, ii, before[s]));
          NotThere(s, ii, before[s]);
        }
      }
    }

    method ReleaseAll(ghost w: World)
      requires w.Valid() && this in w.groups && Valid()
      modifies Slots()
      ensures forall s :: s in w.states ==> s.Exact() && s.LostGroup(this, old(w.Accounts())[s])
    {
      ghost var before := w.Accounts();
      assert w.GroupOk(this) && Slots()[0..] == Slots();
      forall s {:trigger LetGo(s, 0, before[s])} | s in before ensures LetGo(s, 0, before[s]) {
        assert w.Counted(s) && s.holders[this] == Holding(s);
      }
      var ii := 0;
      while ii < numFragments
        invariant ii <= numFragments && AllLetGo(ii, before)
      {
        assert bufferStates[ii] == Slots()[ii];
        ReleaseAt(ii, before);
        ii := ii + 1;
      }
      assert Slots()[numFragments..] == [];
      forall s | s in w.states ensures s.Exact() && s.LostGroup(this, before[s]) {
        assert LetGo(s, numFragments, before[s]);
      }
    }

    /** No place is in use any more. */
    method ZeroOut()
      requires Sized()
      modifies this`numFragments, this`length, fragments, bufferStates
      ensures Valid() && Frags() == [] && Slots() == []
    {
      numFragments, length := 0, 0;
      forall i | 0 <= i < bufferStates.Length { bufferStates[i] := null; }
      forall i | 0 <= i < fragments.Length { fragments[i] := Fragment(Null, 0); }
    }

    method Wipe(ghost w: World)
      requires Sized() && w.GroupsOk() && this in w.groups
      requires forall s {:trigger w.CountedWithout(s, this)} :: s in w.states ==> w.CountedWithout(s, this)
      modifies this`numFragments, this`length, fragments, bufferStates
      ensures w.Valid() && Valid() && Frags() == [] && Slots() == []
    {
      ZeroOut();
      forall g {:trigger w.GroupOk(g)} | g in w.groups ensures w.GroupOk(g) {
        if g != this {
          assert w.Apart(g, this);
          assert old(w.GroupOk(g));
        }
      }
      forall s {:trigger w.Counted(s)} | s in w.states ensures w.Counted(s) {
        assert old(w.CountedWithout(s, this));
        forall h {:trigger h.Holding(s)} | h in w.groups ensures s.holders[h] == h.Holding(s) {
          if h != this { assert w.Apart(h, this) && h.Holding(s) == old(h.Holding(s)); }
        }
      }
    }

    method AddCounted(frag: Fragment, state: BufferState?, off: int, ghost w: World)
      requires Valid() && w.Valid() && this in w.groups && (state != null ==> state in w.states)
      requires frag.ptr != Null && !Overruns(off)
      modifies this`numFragments, this`length, fragments, bufferStates
      modifies (if state == null then {} else {state})`refcount, (if state == null then {} else {state})`holders
      ensures Valid() && w.Valid()
      ensures Frags() == Placed(old(Frags()), frag, off, old(IsFree(Frags(), off)))
      ensures Slots() == Placed(old(Slots()), state, off, old(IsFree(Frags(), off)))
      ensures forall s {:trigger One(state, s)} :: s in w.states ==> s.holders == old(s.holders) + One(state, s)
      ensures length == U32(old(length) + frag.len)
      ensures state != null ==> state.refcount == old(state.refcount) + 1
    {
      EnterUncounted(frag, state, off, w);
      Count(state, w);
    }

    /** AddFragment(frag, state, off). */
    method AddFragment(frag: Fragment, state: BufferState?, off: int, ghost w: World) returns (status: Status)
      requires numFragments <= maxFrags ==>
        && Valid() && w.Valid() && this in w.groups && (state != null ==> state in w.states)
      modifies this`numFragments, this`length, fragments, bufferStates
      modifies (if state == null then {} else {state})`refcount, (if state == null then {} else {state})`holders
      ensures status == if old(numFragments) > maxFrags then TOO_MANY_FRAGS
                        else if frag.ptr == Null then EMPTY_FRAGMENT
                        else if old(Overruns(off)) then OVERRUN
                        else BFG_SUCCESS
      ensures Refused(status) ==>
        && unchanged(this) && unchanged(fragments) && unchanged(bufferStates) && (state != null ==> unchanged(state))
      ensures status == EMPTY_FRAGMENT || status == BFG_SUCCESS ==> Valid() && w.Valid()
      ensures status == BFG_SUCCESS ==>
        && Frags() == Placed(old(Frags()), frag, off, old(IsFree(Frags(), off)))
        && Slots() == Placed(old(Slots()), state, off, old(IsFree(Frags(), off)))
        && forall s {:trigger One(state, s)} :: s in w.states ==> s.holders == old(s.holders) + One(state, s)
      ensures status == BFG_SUCCESS ==>
        length == U32(old(length) + frag.len) && (state != null ==> state.refcount == old(state.refcount) + 1)
    {
      if numFragments > maxFrags { return TOO_MANY_FRAGS; }
      if frag.ptr == Null { return EMPTY_FRAGMENT; }
      if Overruns(off) { return OVERRUN; }
      AddCounted(frag, state, off, w);
      status := BFG_SUCCESS;
    }

    /** Clear(): each place lets go of its reference once, so that a buffer is released exactly
        if this group held the last ones, however many. */
    method Clear(ghost w: World)
      requires w.Valid() && this in w.groups && Valid()
      modifies this`numFragments, this`length, fragments, bufferStates, Slots()
      ensures w.Valid() && Valid() && Frags() == [] && Slots() == []
      ensures forall s :: s in w.states ==> s.LostGroup(this, old(w.Accounts())[s])
      ensures forall s :: s in w.states ==>
                var places := multiset(old(Slots()))[s];
                && s.refcount == old(s.refcount) - places
                && s.released == old(s.released) +
                                 if old(s.refcount) == places > 0 && (s.bufMgr || s.freeFunction) then 1 else 0
    {
      ghost var before := w.Accounts();
      forall s | s in w.states
        ensures s.refcount == |s.holders| && multiset(Slots())[s] == s.holders[this]
      {
        assert w.Counted(s) && Holding(s) == s.holders[this];
      }
      ReleaseAll(w);
      forall s | s in w.states
        ensures var places := before[s].holders[this];
                && s.refcount == |before[s].holders| - places
                && s.released == before[s].released +
                                 if |before[s].holders| == places > 0 && (s.bufMgr || s.freeFunction) then 1 else 0
      {
        OnlyHolder(before[s].holders, this);
        assert s.LostGroup(this, before[s]);
      }
      forall s {:trigger w.CountedWithout(s, this)} | s in w.states ensures w.CountedWithout(s, this) {
        assert s.LostGroup(this, before[s]) && old(w.Counted(s));
        forall h {:trigger h.Holding(s)} | h in w.groups && h != this ensures s.holders[h] == h.Holding(s) {
          assert h.Holding(s) == old(h.Holding(s));
        }
      }
      Wipe(w);
    }

    /** This group once if s is the state that was placed. */
    ghost function One(state: BufferState?, s: BufferState): multiset<BufFragGroup> {
      if s == state then multiset{this} else multiset{}
    }
  }

  /** All the groups and buffer states there are. */
  class World {
    ghost var groups: set<BufFragGroup>
    ghost var states: set<BufferState>

    ghost function StateArrays(): set<array<BufferState?>>
      reads this
    {
      set g | g in groups :: g.bufferStates
    }

    ghost function FragArrays(): set<array<Fragment>>
      reads this
    {
      set g | g in groups :: g.fragments
    }

    ghost function Accounts(): map<BufferState, Account>
      reads this, states
    {
      map s | s in states :: Account(s.holders, s.released)
    }

    /** No two groups share their arrays, and what they hold is known. */
    ghost predicate GroupsOk()
      reads this, groups, StateArrays(), FragArrays()
    {
      && (forall g {:trigger GroupOk(g)} :: g in groups ==> GroupOk(g))
      && forall g, h {:trigger Apart(g, h)} :: g in groups && h in groups ==> Apart(g, h)
    }

    ghost predicate Apart(g: BufFragGroup, h: BufFragGroup) {
      g != h ==> g.bufferStates != h.bufferStates && g.fragments != h.fragments
    }

    ghost predicate GroupOk(g: BufFragGroup)
      reads this, g, g.bufferStates, g.fragments
    {
      g.Valid() && forall s :: s in g.Slots() && s != null ==> s in states
    }

    /** With the missing references on its account, s is held by the places of the groups, each once. */
    ghost predicate CountedBut(s: BufferState, missing: multiset<BufFragGroup>)
      requires GroupsOk()
      reads this, groups, StateArrays(), FragArrays(), s
    {
      && s.Exact() && (forall h {:trigger s.holders[h]} :: h in s.holders ==> h in groups)
      && forall h {:trigger h.Holding(s)} :: h in groups ==> (s.holders + missing)[h] == h.Holding(s)
    }

    /** s is held by the places of all groups but g. */
    ghost predicate CountedWithout(s: BufferState, g: BufFragGroup)
      requires GroupsOk()
      reads this, groups, StateArrays(), FragArrays(), s
    {
      && s.Exact() && s.holders[g] == 0 && (forall h {:trigger s.holders[h]} :: h in s.holders ==> h in groups)
      && forall h {:trigger h.Holding(s)} :: h in groups && h != g ==> s.holders[h] == h.Holding(s)
    }

    ghost predicate Counted(s: BufferState)
      requires GroupsOk()
      reads this, groups, StateArrays(), FragArrays(), s
    {
      CountedBut(s, multiset{})
    }

    ghost predicate Valid()
      reads this, groups, StateArrays(), FragArrays(), states
    {
      GroupsOk() && forall s {:trigger Counted(s)} :: s in states ==> Counted(s)
    }

    /** What happens elsewhere does not disturb the accounts. */
    twostate lemma Untouched()
      requires old(Valid()) && unchanged(this) && unchanged(groups) && unchanged(StateArrays())
      requires unchanged(FragArrays()) && unchanged(states)
      ensures Valid()
    {
      forall g {:trigger GroupOk(g)} | g in groups ensures GroupOk(g) { assert old(GroupOk(g)); }
      forall s {:trigger Counted(s)} | s in states ensures Counted(s) { assert old(Counted(s)); }
    }

    constructor ()
      ensures Valid() && groups == {} && states == {}
    {
      groups, states := {}, {};
    }

    method NewState(ptr: Pointer, bufMgr: bool, freeFunction: bool) returns (s: BufferState)
      requires Valid()
      modifies this`states
      ensures Valid() && fresh(s) && states == old(states) + {s} && s.refcount == 0 && s.released == 0
      ensures s.bufMgr == bufMgr && s.freeFunction == freeFunction
    {
      s := new BufferState(ptr, bufMgr, freeFunction);
      states := states + {s};
      forall g {:trigger GroupOk(g)} | g in groups ensures GroupOk(g) { assert old(GroupOk(g)); }
      forall t {:trigger Counted(t)} | t in states ensures Counted(t) {
        if t != s {
          assert old(Counted(t));
        } else {
          forall h {:trigger h.Holding(s)} | h in groups ensures s.holders[h] == h.Holding(s) {
            assert old(GroupOk(h));
          }
        }
      }
    }

    /** A new group, empty so far. */
    ghost method Join(g: BufFragGroup)
      requires Valid() && g !in groups && g.Valid() && g.Slots() == []
      requires forall h {:trigger Apart(g, h)} :: h in groups ==> Apart(g, h)
      modifies this`groups
      ensures Valid() && groups == old(groups) + {g}
    {
      groups := groups + {g};
      forall h {:trigger GroupOk(h)} | h in groups ensures GroupOk(h) { assert h != g ==> old(GroupOk(h)); }
      forall h, k {:trigger Apart(h, k)} | h in groups && k in groups ensures Apart(h, k) {
        if h != g && k != g { assert Apart(h, k); } else { assert Apart(g, if h != g then h else k) || h == k; }
      }
      forall s {:trigger Counted(s)} | s in states ensures Counted(s) {
        assert old(Counted(s));
        forall h {:trigger h.Holding(s)} | h in groups ensures s.holders[h] == h.Holding(s) {
          if h == g { assert s.holders[g] == 0; }
        }
      }
    }

    /** A state's count is zero exactly when no place of any group holds it. */
    lemma UnheldExactly(s: BufferState)
      requires Valid() && s in states
      ensures s.refcount == 0 <==> forall g :: g in groups && g.Sized() ==> s !in g.Slots()
    {
      assert Counted(s);
      if s.refcount > 0 {
        var g :| g in s.holders;
        assert s.holders[g] == g.Holding(s);
        assert GroupOk(g);
      } else {
        forall g | g in groups && g.Sized() ensures s !in g.Slots() { assert s.holders[g] == g.Holding(s); }
      }
    }
  }

  predicate InBounds(f: Fragment) {
    f.ptr.At? ==> f.ptr.offset + f.len <= f.ptr.block.Length
  }

  predicate AllInBounds(fs: seq<Fragment>) {
    forall i {:trigger InBounds(fs[i])} :: 0 <= i < |fs| ==> InBounds(fs[i])
  }

  ghost function BlocksOf(fs: seq<Fragment>): set<array<Byte>> {
    set f | f in fs && f.ptr.At? :: f.ptr.block
  }

  /** The bytes of a fragment. */
  ghost function Bytes(f: Fragment): (r: seq<Byte>)
    requires InBounds(f)
    reads if f.ptr.At? then {f.ptr.block} else {}
    ensures |r| == if f.ptr.At? then f.len else 0
  {
    match f.ptr
    case Null => []
    case At(block, offset) => block[offset..offset + f.len]
  }

  /** The bytes of each fragment. */
  ghost function AllBytes(fs: seq<Fragment>): (r: seq<seq<Byte>>)
    requires AllInBounds(fs)
    reads BlocksOf(fs)
    ensures |r| == |fs| && forall i {:trigger r[i]} :: 0 <= i < |fs| ==> InBounds(fs[i]) && r[i] == Bytes(fs[i])
  {
    if fs == [] then []
    else
      var n := |fs| - 1;
      assert InBounds(fs[n]) && forall i :: 0 <= i < n ==> fs[..n][i] == fs[i];
      assert AllInBounds(fs[..n]) by {
        forall i {:trigger InBounds(fs[..n][i])} | 0 <= i < n ensures InBounds(fs[..n][i]) { assert InBounds(fs[i]); }
      }
      AllBytes(fs[..n]) + [Bytes(fs[n])]
  }

  lemma PlacedBytesAt(fs: seq<Fragment>, f: Fragment, off: int, free: bool, i: nat)
    requires AllInBounds(fs) && InBounds(f) && i < |Placed(fs, f, off, free)|
    ensures InBounds(Placed(fs, f, off, free)[i])
    ensures |Placed(AllBytes(fs), Bytes(f), off, free)| == |Placed(fs, f, off, free)|
    ensures Bytes(Placed(fs, f, off, free)[i]) == Placed(AllBytes(fs), Bytes(f), off, free)[i]
  {
    PlacedAt(fs, f, off, free, i);
    PlacedAt(AllBytes(fs), Bytes(f), off, free, i);
    if i != Place(off, |fs|) {
      var j := Source(i, Place(off, |fs|), free && InRange(off, |fs|));
      assert InBounds(fs[j]) && AllBytes(fs)[j] == Bytes(fs[j]);
    }
  }

  /** Placing a fragment places its bytes. */
  lemma AllBytesPlaced(fs: seq<Fragment>, f: Fragment, off: int, free: bool)
    requires AllInBounds(fs) && InBounds(f)
    ensures AllInBounds(Placed(fs, f, off, free))
    ensures AllBytes(Placed(fs, f, off, free)) == Placed(AllBytes(fs), Bytes(f), off, free)
  {
    var fs' := Placed(fs, f, off, free);
    forall i {:trigger InBounds(fs'[i])} | 0 <= i < |fs'| ensures InBounds(fs'[i]) {
      PlacedBytesAt(fs, f, off, free, i);
    }
    var bs := Placed(AllBytes(fs), Bytes(f), off, free);
    forall i {:trigger BytesMatch(fs', bs, i)} | 0 <= i < |fs'| ensures BytesMatch(fs', bs, i) {
      PlacedBytesAt(fs, f, off, free, i);
    }
    AllBytesIs(fs', bs);
  }

  ghost predicate BytesMatch(fs: seq<Fragment>, bs: seq<seq<Byte>>, i: nat)
    reads BlocksOf(fs)
  {
    i < |fs| == |bs| && InBounds(fs[i]) && bs[i] == Bytes(fs[i])
  }

  lemma AllBytesIs(fs: seq<Fragment>, bs: seq<seq<Byte>>)
    requires AllInBounds(fs) && |fs| == |bs|
    requires forall i {:trigger BytesMatch(fs, bs, i)} :: 0 <= i < |fs| ==> BytesMatch(fs, bs, i)
    ensures AllBytes(fs) == bs
  {
    forall i | 0 <= i < |fs| ensures AllBytes(fs)[i] == bs[i] { assert BytesMatch(fs, bs, i); }
  }

  /** memcpy of n bytes between stretches that do not overlap. */
  method CopyBytes(dst: array<Byte>, to: nat, src: array<Byte>, from: nat, n: nat)
    requires to + n <= dst.Length && from + n <= src.Length
    requires dst != src || from + n <= to || to + n <= from
    modifies dst
    ensures dst[to..to + n] == old(src[from..from + n])
    ensures forall q :: 0 <= q < dst.Length && !(to <= q < to + n) ==> dst[q] == old(dst[q])
  {
    var k := 0;
    while k < n
      invariant k <= n
      invariant dst[to..to + k] == old(src[from..from + k])
      invariant forall q :: 0 <= q < dst.Length && !(to <= q < to + k) ==> dst[q] == old(dst[q])
    {
      assert src[from + k] == old(src[from + k]);
      dst[to + k] := src[from + k];
      assert dst[to..to + k + 1] == dst[to..to + k] + [dst[to + k]];
      k := k + 1;
    }
  }

  class MediaData {
    /** The base class part. */
    const group: BufFragGroup
    const localbuf: array<Byte>
    var availableLocalbuf: nat
    /** The stretches of localbuf handed out since the last Clear. */
    ghost var regions: seq<Region>

    function Used(): int
      reads this
    {
      localbuf.Length - availableLocalbuf
    }

    /** The bytes are there, and in localbuf only where it is in use. */
    ghost predicate Readable(f: Fragment)
      reads this
    {
      InBounds(f) && (f.ptr.At? && f.ptr.block == localbuf ==> f.ptr.offset + f.len <= Used())
    }

    ghost predicate AllReadable(fs: seq<Fragment>)
      reads this
    {
      forall i {:trigger Readable(fs[i])} :: 0 <= i < |fs| ==> Readable(fs[i])
    }

    ghost predicate Valid()
      reads this, group, group.fragments, group.bufferStates
    {
      group.Valid() && availableLocalbuf <= localbuf.Length && Tiled(regions, Used()) && AllReadable(group.Frags())
    }

    constructor (maxFrags: nat, localBufsize: nat, ghost w: World)
      requires w.Valid()
      modifies w`groups
      ensures Valid() && w.Valid() && group in w.groups && group.Frags() == [] && group.maxFrags == maxFrags
      ensures availableLocalbuf == localbuf.Length == localBufsize && regions == []
      ensures fresh(group) && fresh(group.fragments) && fresh(group.bufferStates) && fresh(localbuf)
      ensures w.groups == old(w.groups) + {group} && Payload() == []
    {
      localbuf := new Byte[localBufsize];
      availableLocalbuf := localBufsize;
      regions := [];
      w.Untouched();
      group := new BufFragGroup(maxFrags, w);
      label Made:
      new;
      w.Untouched@Made();
    }

    /** GetLocalFragment(fragment): len bytes of localbuf, or what is left of it. */
    method GetLocalFragment(fragment: Fragment) returns (result: Fragment, status: Status)
      requires Valid()
      modifies this`availableLocalbuf, this`regions
      ensures Valid()
      ensures if fragment.len <= old(availableLocalbuf)
              then status == BFG_SUCCESS && result == Fragment(At(localbuf, old(Used())), fragment.len)
                   && Readable(result) && regions == old(regions) + [Region(old(Used()), fragment.len)]
              else status == NOT_ENOUGH_SPACE && result == Fragment(Null, old(availableLocalbuf))
                   && regions == old(regions)
    {
      if fragment.len > availableLocalbuf {
        return Fragment(Null, availableLocalbuf), NOT_ENOUGH_SPACE;
      }
      result := Fragment(At(localbuf, localbuf.Length - availableLocalbuf), fragment.len);
      Take(fragment.len);
      status := BFG_SUCCESS;
    }

    /** The next n bytes of localbuf are in use from now on. */
    method Take(n: nat)
      requires Valid() && n <= availableLocalbuf
      modifies this`availableLocalbuf, this`regions
      ensures Valid() && Used() == old(Used()) + n && regions == old(regions) + [Region(old(Used()), n)]
    {
      ghost var fs := group.Frags();
      regions := regions + [Region(Used(), n)];
      availableLocalbuf := availableLocalbuf - n;
      forall i {:trigger Readable(fs[i])} | 0 <= i < |fs| ensures Readable(fs[i]) { assert old(Readable(fs[i])); }
    }

    ghost function Blocks(): set<array<Byte>>
      reads group, group.fragments
    {
      if group.numFragments <= group.fragments.Length then BlocksOf(group.Frags()) else {}
    }

    lemma ReadableInBounds()
      requires group.Sized() && AllReadable(group.Frags())
      ensures AllInBounds(group.Frags())
    {
      var fs := group.Frags();
      forall i {:trigger InBounds(fs[i])} | 0 <= i < |fs| ensures InBounds(fs[i]) { assert Readable(fs[i]); }
    }

    /** The bytes in each place. */
    ghost function Contents(): (cs: seq<seq<Byte>>)
      requires Valid()
      reads this, group, group.fragments, group.bufferStates, Blocks()
      ensures |cs| == group.numFragments
    {
      ReadableInBounds();
      AllBytes(group.Frags())
    }

    ghost function Payload(): seq<Byte>
      requires Valid()
      reads this, group, group.fragments, group.bufferStates, Blocks()
    {
      Flatten(Contents())
    }

    /** Where a fragment at off is spliced into the payload. */
    ghost function SplicePoint(off: int): nat
      requires Valid()
      reads this, group, group.fragments, group.bufferStates, Blocks()
    {
      |Flatten(Contents()[..Place(off, group.numFragments)])|
    }

    /** A fragment's bytes go behind those of the places before it, or behind all. */
    lemma SplicePointIs(off: int)
      requires Valid()
      ensures SplicePoint(off) == if 0 <= off < group.numFragments then |Flatten(Contents()[..off])| else |Payload()|
    {
      assert Contents()[..group.numFragments] == Contents();
    }

    lemma PlacedReadable(fs: seq<Fragment>, f: Fragment, off: int, free: bool)
      requires AllReadable(fs) && Readable(f)
      ensures AllReadable(Placed(fs, f, off, free))
    {
      var fs' := Placed(fs, f, off, free);
      forall i {:trigger Readable(fs'[i])} | 0 <= i < |fs'| ensures Readable(fs'[i]) {
        PlacedAt(fs, f, off, free, i);
        if i != Place(off, |fs|) { assert Readable(fs[Source(i, Place(off, |fs|), free && InRange(off, |fs|))]); }
      }
    }

    lemma PlacedIsThere(fs: seq<Fragment>, f: Fragment, off: int, free: bool)
      ensures !Readable(f) ==> !AllReadable(Placed(fs, f, off, free))
    {
      var fs', i := Placed(fs, f, off, free), Place(off, |fs|);
      PlacedAt(fs, f, off, free, i);
      var ok := Readable(fs'[i]);
    }

    /** A fragment goes in; all that is in place stays readable exactly if it is. */
    method PlaceReadable(frag: Fragment, state: BufferState?, off: int, ghost w: World)
      requires Valid() && w.Valid() && group in w.groups && (state != null ==> state in w.states)
      requires frag.ptr != Null && !group.Overruns(off)
      modifies group`numFragments, group`length, group.fragments, group.bufferStates
      modifies (if state == null then {} else {state})`refcount, (if state == null then {} else {state})`holders
      ensures group.Valid() && w.Valid() && (Valid() <==> Readable(frag))
      ensures group.Frags() == Placed(old(group.Frags()), frag, off, old(IsFree(group.Frags(), off)))
      ensures group.Slots() == Placed(old(group.Slots()), state, off, old(IsFree(group.Frags(), off)))
    {
      if Readable(frag) { PlacedReadable(group.Frags(), frag, off, IsFree(group.Frags(), off)); }
      PlacedIsThere(group.Frags(), frag, off, IsFree(group.Frags(), off));
      group.AddCounted(frag, state, off, w);
    }

    /** A readable fragment goes in, and its bytes with it. */
    method PlaceFragment(frag: Fragment, state: BufferState?, off: int, ghost w: World)
      requires Valid() && w.Valid() && group in w.groups && (state != null ==> state in w.states)
      requires frag.ptr != Null && !group.Overruns(off)
      modifies group`numFragments, group`length, group.fragments, group.bufferStates
      modifies (if state == null then {} else {state})`refcount, (if state == null then {} else {state})`holders
      ensures group.Valid() && w.Valid() && (Valid() <==> Readable(frag))
      ensures group.Frags() == Placed(old(group.Frags()), frag, off, old(IsFree(group.Frags(), off)))
      ensures group.Slots() == Placed(old(group.Slots()), state, off, old(IsFree(group.Frags(), off)))
      ensures Readable(frag) ==>
        Contents() == Placed(old(Contents()), old(Bytes(frag)), off, old(IsFree(group.Frags(), off)))
    {
      ghost var fs, free := group.Frags(), IsFree(group.Frags(), off);
      ReadableInBounds();
      PlaceReadable(frag, state, off, w);
      if Readable(frag) {
        assert AllBytes(fs) == old(AllBytes(fs)) && Bytes(frag) == old(Bytes(frag));
        AllBytesPlaced(fs, frag, off, free);
      }
    }

    /** AddFragment of the base class: what is placed is spliced into the payload. */
    method AddFragment(frag: Fragment, state: BufferState?, off: int, ghost w: World) returns (status: Status)
      requires Valid() && w.Valid() && group in w.groups && (state != null ==> state in w.states)
      modifies group`numFragments, group`length, group.fragments, group.bufferStates
      modifies (if state == null then {} else {state})`refcount, (if state == null then {} else {state})`holders
      ensures status == if frag.ptr == Null then EMPTY_FRAGMENT else if old(group.Overruns(off))
                        then OVERRUN
                        else BFG_SUCCESS
      ensures status != OVERRUN ==> group.Valid() && w.Valid()
      ensures Refused(status) ==> Valid()
      ensures status == BFG_SUCCESS ==> (Valid() <==> Readable(frag))
      ensures Refused(status) ==> unchanged(group) && unchanged(group.fragments) && unchanged(group.bufferStates)
      ensures Refused(status) ==> (state != null ==> unchanged(state)) && Payload() == old(Payload())
      ensures status == BFG_SUCCESS ==>
        && group.Frags() == Placed(old(group.Frags()), frag, off, old(IsFree(group.Frags(), off)))
        && group.Slots() == Placed(old(group.Slots()), state, off, old(IsFree(group.Frags(), off)))
      ensures status == BFG_SUCCESS && Readable(frag) ==>
        var p, at := old(Payload()), old(SplicePoint(off));
        at <= |p| && Payload() == p[..at] + old(Bytes(frag)) + p[at..]
    {
      if frag.ptr == Null { return EMPTY_FRAGMENT; }
      if group.Overruns(off) { return OVERRUN; }
      Splice(frag, state, off, w);
      status := BFG_SUCCESS;
    }

    /** A readable fragment goes in, and the payload has its bytes where it went. */
    method Splice(frag: Fragment, state: BufferState?, off: int, ghost w: World)
      requires Valid() && w.Valid() && group in w.groups && (state != null ==> state in w.states)
      requires frag.ptr != Null && !group.Overruns(off)
      modifies group`numFragments, group`length, group.fragments, group.bufferStates
      modifies (if state == null then {} else {state})`refcount, (if state == null then {} else {state})`holders
      ensures group.Valid() && w.Valid() && (Valid() <==> Readable(frag))
      ensures group.Frags() == Placed(old(group.Frags()), frag, off, old(IsFree(group.Frags(), off)))
      ensures group.Slots() == Placed(old(group.Slots()), state, off, old(IsFree(group.Frags(), off)))
      ensures Readable(frag) ==>
        var p, at := old(Payload()), old(SplicePoint(off));
        at <= |p| && Payload() == p[..at] + old(Bytes(frag)) + p[at..]
    {
      FreePlaceIsEmpty(off);
      if Readable(frag) { PlacedFlatten(Contents(), Bytes(frag), off, IsFree(group.Frags(), off)); }
      PlaceFragment(frag, state, off, w);
    }

    lemma FreePlaceIsEmpty(off: int)
      requires Valid()
      ensures IsFree(group.Frags(), off) ==> 0 <= off < |Contents()| && Contents()[off] == []
    {
      ReadableInBounds();
      if IsFree(group.Frags(), off) { assert AllBytes(group.Frags())[off] == Bytes(group.Frags()[off]); }
    }

    /** Every fragment of fs that lies in localbuf ends before to. */
    ghost predicate Below(fs: seq<Fragment>, to: int) {
      forall i {:trigger InBounds(fs[i])} :: 0 <= i < |fs| ==>
        InBounds(fs[i]) && (fs[i].ptr.At? && fs[i].ptr.block == localbuf ==> fs[i].ptr.offset + fs[i].len <= to)
    }

    /** memcpy of frag to the place to, past all fragments of fs. */
    method CopyPast(frag: Fragment, to: nat, ghost fs: seq<Fragment>)
      requires frag.ptr.At? && InBounds(frag) && to + frag.len <= localbuf.Length && Below(fs, to) && AllInBounds(fs)
      requires frag.ptr.block != localbuf || frag.ptr.offset + frag.len <= to || to + frag.len <= frag.ptr.offset
      modifies localbuf
      ensures localbuf[to..to + frag.len] == old(Bytes(frag)) && AllBytes(fs) == old(AllBytes(fs))
    {
      ghost var bs := AllBytes(fs);
      CopyBytes(localbuf, to, frag.ptr.block, frag.ptr.offset, frag.len);
      forall i {:trigger BytesMatch(fs, bs, i)} | 0 <= i < |fs| ensures BytesMatch(fs, bs, i) {
        assert InBounds(fs[i]) && bs[i] == old(Bytes(fs[i]));
      }
      AllBytesIs(fs, bs);
    }

    /** The bytes of frag in the next part of localbuf; nothing that is in place changes. */
    method CopyIn(frag: Fragment, ghost w: World) returns (local: Fragment)
      requires Valid() && w.Valid() && frag.ptr.At? && InBounds(frag) && frag.len <= availableLocalbuf
      requires
        || frag.ptr.block != localbuf
        || frag.ptr.offset + frag.len <= Used()
        || Used() + frag.len <= frag.ptr.offset
      modifies this`availableLocalbuf, this`regions, localbuf
      ensures Valid() && w.Valid() && Contents() == old(Contents())
      ensures Used() == old(Used()) + frag.len && regions == old(regions) + [Region(old(Used()), frag.len)]
      ensures local == Fragment(At(localbuf, old(Used())), frag.len) && Readable(local)
      ensures Bytes(local) == old(Bytes(frag))
    {
      var to := localbuf.Length - availableLocalbuf;
      local := Fragment(At(localbuf, to), frag.len);
      ghost var fs := group.Frags();
      ReadableInBounds();
      forall i {:trigger InBounds(fs[i])} | 0 <= i < |fs|
        ensures InBounds(fs[i]) && (fs[i].ptr.At? && fs[i].ptr.block == localbuf ==> fs[i].ptr.offset + fs[i].len <= to)
      {
        assert Readable(fs[i]);
      }
      Take(frag.len);
      CopyPast(frag, to, fs);
      ReadableInBounds();
      w.Untouched();
    }

    /** What AddLocalFragment needs once its guards let it through. */
    ghost predicate LocalOk(frag: Fragment)
      reads this
    {
      frag.ptr.At? && 0 < frag.len <= availableLocalbuf ==>
        && InBounds(frag)
        && (frag.ptr.block == localbuf ==> frag.ptr.offset + frag.len <= Used() || Used() + frag.len <= frag.ptr.offset)
    }

    /** AddLocalFragment(frag, off): a copy of the bytes in localbuf goes in. */
    method AddLocalFragment(frag: Fragment, off: int, ghost w: World) returns (status: Status)
      requires group.numFragments <= group.maxFrags ==> Valid() && w.Valid() && group in w.groups && LocalOk(frag)
      modifies this`availableLocalbuf, this`regions, localbuf
      modifies group`numFragments, group`length, group.fragments, group.bufferStates
      ensures status == if old(group.numFragments) > group.maxFrags then TOO_MANY_FRAGS
                        else if frag.ptr == Null || frag.len == 0 then EMPTY_FRAGMENT
                        else if frag.len > old(availableLocalbuf) then NOT_ENOUGH_SPACE
                        else if old(group.Overruns(off)) then OVERRUN
                        else BFG_SUCCESS
      ensures status != TOO_MANY_FRAGS && status != OVERRUN ==> Valid() && w.Valid()
      ensures Refused(status) ==>
        && unchanged(this) && unchanged(localbuf) && unchanged(group) && unchanged(group.fragments)
                                        && unchanged(group.bufferStates)
      ensures status == BFG_SUCCESS ==>
        var local, free := Fragment(At(localbuf, old(Used())), frag.len), old(IsFree(group.Frags(), off));
        && Used() == old(Used()) + frag.len && regions == old(regions) + [Region(old(Used()), frag.len)]
        && group.Frags() == Placed(old(group.Frags()), local, off, free)
        && group.Slots() == Placed(old(group.Slots()), null, off, free)
      ensures status == BFG_SUCCESS ==>
        var p, at := old(Payload()), old(SplicePoint(off));
        at <= |p| && Payload() == p[..at] + old(Bytes(frag)) + p[at..]
    {
      if group.numFragments > group.maxFrags { return TOO_MANY_FRAGS; }
      if frag.ptr == Null || frag.len == 0 { return EMPTY_FRAGMENT; }
      if frag.len > availableLocalbuf { return NOT_ENOUGH_SPACE; }
      if group.Overruns(off) { return OVERRUN; }
      FreePlaceIsEmpty(off);
      PlacedFlatten(Contents(), Bytes(frag), off, IsFree(group.Frags(), off));
      AddLocal(frag, off, w);
      status := BFG_SUCCESS;
    }

    /** AddLocalFragment once its guards let it through. */
    method AddLocal(frag: Fragment, off: int, ghost w: World)
      requires Valid() && w.Valid() && group in w.groups && LocalOk(frag) && frag.ptr.At?
      requires 0 < frag.len <= availableLocalbuf
      requires !group.Overruns(off)
      modifies this`availableLocalbuf, this`regions, localbuf
      modifies group`numFragments, group`length, group.fragments, group.bufferStates
      ensures Valid() && w.Valid()
      ensures Used() == old(Used()) + frag.len && regions == old(regions) + [Region(old(Used()), frag.len)]
      ensures var local := Fragment(At(localbuf, old(Used())), frag.len);
              group.Frags() == Placed(old(group.Frags()), local, off, old(IsFree(group.Frags(), off)))
      ensures group.Slots() == Placed(old(group.Slots()), null, off, old(IsFree(group.Frags(), off)))
      ensures Contents() == Placed(old(Contents()), old(Bytes(frag)), off, old(IsFree(group.Frags(), off)))
    {
      var local := CopyIn(frag, w);
      PlaceFragment(local, null, off, w);
    }

    /** Clear(): the places let go of their buffers, and all of localbuf is free again. */
    method Clear(ghost w: World)
      requires w.Valid() && group in w.groups && Valid()
      modifies this`availableLocalbuf, this`regions
      modifies group`numFragments, group`length, group.fragments, group.bufferStates, group.Slots()
      ensures Valid() && w.Valid() && availableLocalbuf == localbuf.Length && regions == [] && group.Frags() == []
      ensures Payload() == []
      ensures forall s :: s in w.states ==> s.LostGroup(group, old(w.Accounts())[s])
      ensures forall s :: s in w.states ==>
                var places := multiset(old(group.Slots()))[s];
                && s.refcount == old(s.refcount) - places
                && s.released == old(s.released) +
                                 if old(s.refcount) == places > 0 && (s.bufMgr || s.freeFunction) then 1 else 0
    {
      group.Clear(w);
      label Cleared:
      availableLocalbuf := localbuf.Length;
      regions := [];
      assert AllReadable(group.Frags());
      w.Untouched@Cleared();
    }

    /** The stretches of localbuf handed out are disjoint, lie inside it, and make up what is in use. */
    lemma RegionsAreDisjoint()
      requires Valid()
      ensures RegionsLen(regions) == localbuf.Length - availableLocalbuf
      ensures forall i :: 0 <= i < |regions| ==> regions[i].start + regions[i].len <= localbuf.Length
      ensures forall i, j :: 0 <= i < j < |regions| ==> regions[i].start + regions[i].len <= regions[j].start
    {
      TiledRegions(regions, Used());
    }
  }

  /** The guard of AddFragment comes one too late: the second fragment in a group for one is let
      through, though no place is left for it. */
  method OneTooMany() returns (first: Status, second: Status)
    ensures first == BFG_SUCCESS && second == OVERRUN
  {
    var w := new World();
    var group := new BufFragGroup(1, w);
    var block := new Byte[1];
    var frag := Fragment(At(block, 0), 1);
    first := group.AddFragment(frag, null, 1, w);
    second := group.AddFragment(frag, null, 1, w);
  }

  /** An empty MediaData with room for one fragment of n bytes. */
  method Empty(n: nat) returns (w: World, media: MediaData)
    ensures fresh(w) && fresh(media) && fresh(media.group) && fresh(media.group.fragments)
    ensures fresh(media.group.bufferStates) && fresh(media.localbuf)
    ensures media.Valid() && w.Valid() && media.group in w.groups && media.Payload() == [] && media.SplicePoint(0) == 0
    ensures media.group.numFragments == 0 && media.group.maxFrags == 1 && media.availableLocalbuf == n
  {
    w := new World();
    media := new MediaData(1, n, w);
  }

  lemma SplicedIntoNothing(before: seq<Byte>, at: nat, bytes: seq<Byte>)
    requires before == [] && at == 0
    ensures before[..at] + bytes + before[at..] == bytes
  {
  }

  /** What goes in is what is there. */
  method OneCopy(block: array<Byte>) returns (media: MediaData)
    requires block.Length > 0
    ensures media.Valid() && media.Payload() == block[..]
  {
    var w;
    w, media := Empty(block.Length);
    var frag := Fragment(At(block, 0), block.Length);
    ghost var before, at, bytes := media.Payload(), media.SplicePoint(0), Bytes(frag);
    SplicedIntoNothing(before, at, bytes);
    var status := media.AddLocalFragment(frag, 0, w);
    assert bytes == block[..];
  }

  /** A new group with one fragment that holds the state. */
  method OneIn(block: array<Byte>, w: World, state: BufferState) returns (group: BufFragGroup)
    requires w.Valid() && state in w.states
    modifies w`groups, state`refcount, state`holders
    ensures fresh(group) && fresh(group.fragments) && fresh(group.bufferStates)
    ensures w.Valid() && w.groups == old(w.groups) + {group} && group.Valid() && group.Slots() == [state]
    ensures state.refcount == old(state.refcount) + 1
  {
    group := new BufFragGroup(1, w);
    var status := group.AddFragment(Fragment(At(block, 0), block.Length), state, 0, w);
  }

  /** A buffer in two groups. */
  method InTwo(block: array<Byte>, bufMgr: bool, freeFunction: bool)
    returns (w: World, state: BufferState, a: BufFragGroup, b: BufFragGroup)
    ensures fresh(w) && w.Valid() && w.groups == {a, b} && w.states == {state} && a != b
    ensures fresh(state) && fresh(a) && fresh(a.fragments) && fresh(a.bufferStates)
    ensures fresh(b) && fresh(b.fragments) && fresh(b.bufferStates)
    ensures a.Valid() && a.Slots() == [state] && b.Valid() && b.Slots() == [state]
    ensures state.refcount == 2 && state.released == 0
    ensures state.bufMgr == bufMgr && state.freeFunction == freeFunction
  {
    w := new World();
    state := w.NewState(At(block, 0), bufMgr, freeFunction);
    a := OneIn(block, w, state);
    b := OneIn(block, w, state);
  }

  /** Clears a group whose only place holds the state, and counts how often its buffer is released. */
  method ClearOne(w: World, group: BufFragGroup, state: BufferState) returns (ghost times: nat)
    requires w.Valid() && group in w.groups && group.Valid() && state in w.states && group.Slots() == [state]
    modifies group`numFragments, group`length, group.fragments, group.bufferStates, state
    ensures w.Valid() && state.refcount == old(state.refcount) - 1 && state.released == old(state.released) + times
    ensures times == if old(state.refcount) == 1 && (state.bufMgr || state.freeFunction) then 1 else 0
  {
    ghost var before := state.released;
    group.Clear(w);
    times := state.released - before;
  }

  /** A buffer in two groups: clearing the first leaves it, and clearing the second releases it
      once, if there is a manager or a free function to be told, and not if there is neither. */
  method ReleasedWithTheLast(block: array<Byte>, bufMgr: bool, freeFunction: bool)
    returns (state: BufferState, ghost first: nat)
    ensures first == 0 && state.refcount == 0 && state.released == if bufMgr || freeFunction then 1 else 0
  {
    var w, a, b;
    w, state, a, b := InTwo(block, bufMgr, freeFunction);
    assert w.Apart(a, b);
    first := ClearOne(w, a, state);
    assert b.Slots() == [state];
    ghost var second := ClearOne(w, b, state);
  }
}
