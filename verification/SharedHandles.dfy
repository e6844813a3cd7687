/** OsclRefCounterDA (oscl_refcounter.h) and the two kinds of handle that share it:
    OsclSharedPtr (oscl_shared_ptr.h) and OsclRefCounterMemFrag (oscl_refcounter_memfrag.h). */
module SharedHandles {
  import opened Words

  /** An address; 0 is the null pointer. */
  type Address = nat

  const NULL: Address := 0

  class RefCounter {
    var refcnt: Word
    /** How often the tracked buffer and the counter have been destroyed. */
    ghost var destroyed: nat

    constructor ()
      ensures refcnt == 1 && destroyed == 0
    {
      refcnt := 1;
      destroyed := 0;
    }

    /** One more reference, unless the count is full and starts over. */
    method AddRef()
      requires destroyed == 0
      modifies this
      ensures refcnt == (if old(HasRoom(this)) then old(refcnt) + 1 else 0) && destroyed == 0
    {
      refcnt := U32(refcnt + 1);
    }

    /** The reference that brings the count to zero destroys the buffer and the counter. */
    method RemoveRef()
      requires destroyed == 0 && 0 < refcnt
      modifies this
      ensures refcnt == old(refcnt) - 1
      ensures destroyed == if refcnt == 0 then 1 else 0
    {
      refcnt := U32(refcnt - 1);
      if refcnt == 0 {
        destroyed := destroyed + 1;
      }
    }
  }

  /** The count can go up by one. */
  ghost predicate HasRoom(c: RefCounter?)
    reads c
  {
    c != null ==> c.refcnt + 1 < WORD
  }

  /** A live handle of either kind. */
  datatype Handle = Ptr(p: SharedPtr) | Frag(f: MemFrag) {
    ghost function Target(): RefCounter?
      reads if Ptr? then {p} else {}, if Frag? then {f} else {}
    {
      if Ptr? then p.refcnt else f.refcnt
    }
  }

  /** All live handles, with the counters they are attached to, and, per counter, the references
      that were taken for a handle but not attached to one yet. */
  class Ledger {
    ghost var holds: map<Handle, RefCounter?>
    ghost var pending: map<RefCounter, nat>

    ghost function Holders(c: RefCounter): set<Handle>
      reads this
    {
      set h | h in holds && holds[h] == c
    }

    /** The count is the number of references, attached and pending; a counter is destroyed once,
        when it reaches zero, and never before. */
    ghost predicate Settled(c: RefCounter)
      requires c in pending
      reads this, c
    {
      c.refcnt == |Holders(c)| + pending[c] && c.destroyed == if c.refcnt == 0 then 1 else 0
    }

    /** Every count is exact, and handles lead to known counters only. */
    ghost predicate Counts()
      reads this, pending.Keys
    {
      && (forall h {:trigger holds[h]} :: h in holds && holds[h] != null ==> holds[h] in pending)
      && forall c {:trigger Settled(c)} :: c in pending ==> Settled(c)
    }

    ghost function Ptrs(): set<SharedPtr>
      reads this
    {
      set h | h in holds && h.Ptr? :: h.p
    }

    ghost function Frags(): set<MemFrag>
      reads this
    {
      set h | h in holds && h.Frag? :: h.f
    }

    /** As Counts, and the handles' own fields say what they are attached to. */
    ghost predicate Valid()
      reads this, pending.Keys, Ptrs(), Frags()
    {
      Counts() && forall h {:trigger h.Target()} :: h in holds ==> h.Target() == holds[h]
    }

    /** A live handle's counter is alive. */
    lemma HandleKeepsAlive(h: Handle)
      requires Counts() && h in holds
      ensures var c := holds[h]; c != null ==> c in pending && c.refcnt > 0 && c.destroyed == 0
    {
      if holds[h] != null { assert Settled(holds[h]) && h in Holders(holds[h]); }
    }

    /** A counter is destroyed exactly when no live handle's field leads to it and no reference
        waits for a handle, and then just once; until then the count is their number. */
    lemma DestroyedExactlyWhenUnused(c: RefCounter)
      requires Valid() && c in pending
      ensures c.destroyed == (if pending[c] == 0 && forall h :: h in holds ==> h.Target() != c then 1 else 0)
      ensures c.refcnt == |set h | h in holds && h.Target() == c| + pending[c]
    {
      assert Settled(c);
      assert (set h | h in holds && h.Target() == c) == Holders(c);
      if h :| h in holds && h.Target() == c { assert h in Holders(c); }
    }

    constructor ()
      ensures Valid() && holds == map[] && pending == map[]
    {
      holds, pending := map[], map[];
    }

    /** A new counter, whose first reference waits for its handle. */
    method NewCounter() returns (c: RefCounter)
      requires Valid()
      modifies this`pending
      ensures Valid() && fresh(c) && pending == old(pending)[c := 1]
    {
      c := new RefCounter();
      pending := pending[c := 1];
      forall d {:trigger Settled(d)} | d in pending ensures Settled(d) {
        if d != c {
          assert old(Settled(d)) && Holders(d) == old(Holders(d));
        } else {
          assert Holders(c) == {};
        }
      }
      forall h {:trigger h.Target()} | h in holds ensures h.Target() == holds[h] {
        assert old(h.Target()) == h.Target();
      }
    }
  }

  /** The pending references after one to c has found its handle. */
  ghost function Taken(pending: map<RefCounter, nat>, c: RefCounter?): map<RefCounter, nat>
    requires c != null ==> c in pending && pending[c] > 0
  {
    if c == null then pending else pending[c := pending[c] - 1]
  }

  /** The handle h, attached to c, stops counting. */
  method Release(ghost h: Handle, c: RefCounter?, ghost w: Ledger)
    requires w.Counts() && h in w.holds && w.holds[h] == c
    modifies w`holds, w.pending.Keys
    ensures w.Counts() && w.holds == old(w.holds) - {h}
    ensures forall d :: d in w.pending ==> d.refcnt == if d == c then old(d.refcnt) - 1 else old(d.refcnt)
  {
    w.HandleKeepsAlive(h);
    if c != null {
      assert w.Settled(c);
      c.RemoveRef();
    }
    w.holds := w.holds - {h};
    forall d {:trigger w.Settled(d)} | d in w.pending ensures w.Settled(d) {
      assert old(w.Settled(d)) && w.Holders(d) == old(w.Holders(d)) - {h};
    }
  }

  /** The handle h counts on c from now on; the counts stay right exactly if there is room. */
  method Acquire(ghost h: Handle, c: RefCounter?, ghost w: Ledger)
    requires w.Counts() && h !in w.holds
    requires c != null ==> c in w.pending && 0 < c.refcnt
    modifies w`holds, w.pending.Keys
    ensures w.holds == old(w.holds)[h := c] && (w.Counts() <==> old(HasRoom(c)))
  {
    if c != null {
      assert w.Settled(c);
      c.AddRef();
    }
    w.holds := w.holds[h := c];
    forall d {:trigger w.Settled(d)} | d in w.pending ensures w.Settled(d) <==> d != c || old(HasRoom(c)) {
      assert old(w.Settled(d)) && w.Holders(d) == old(w.Holders(d)) + if d == c then {h} else {};
    }
    assert c != null ==> (w.Settled(c) <==> old(HasRoom(c)));
  }

  /** The handle h takes over a pending reference to c; the count stays as it is. */
  ghost method Adopt(h: Handle, c: RefCounter?, w: Ledger)
    requires w.Counts() && h !in w.holds && (c != null ==> c in w.pending && w.pending[c] > 0)
    modifies w
    ensures w.Counts() && w.holds == old(w.holds)[h := c] && w.pending == Taken(old(w.pending), c)
  {
    w.holds := w.holds[h := c];
    w.pending := Taken(w.pending, c);
    forall d {:trigger w.Settled(d)} | d in w.pending ensures w.Settled(d) {
      assert old(w.Settled(d)) && w.Holders(d) == old(w.Holders(d)) + if d == c then {h} else {};
    }
  }

  class SharedPtr {
    var mpRep: Address
    var refcnt: RefCounter?

    /** OsclSharedPtr(inClassPtr, in_refcnt): the counter's reference for this handle was taken by the caller. */
    constructor (p: Address, c: RefCounter?, ghost w: Ledger)
      requires w.Valid() && (c != null ==> c in w.pending && w.pending[c] > 0)
      modifies w
      ensures w.Valid() && w.holds == old(w.holds)[Ptr(this) := c] && w.pending == Taken(old(w.pending), c)
      ensures mpRep == p && refcnt == c
    {
      mpRep, refcnt := p, c;
      new;
      Adopt(Ptr(this), c, w);
    }

    constructor Copy(x: SharedPtr, ghost w: Ledger)
      requires w.Valid() && Ptr(x) in w.holds
      modifies w`holds, w.pending.Keys
      ensures w.Valid() <==> old(HasRoom(x.refcnt))
      ensures w.holds == old(w.holds)[Ptr(this) := x.refcnt]
      ensures mpRep == x.mpRep && refcnt == x.refcnt
    {
      mpRep, refcnt := x.mpRep, x.refcnt;
      new;
      assert Ptr(x).Target() == x.refcnt;
      w.HandleKeepsAlive(Ptr(x));
      Acquire(Ptr(this), refcnt, w);
    }

    /** The destructor. */
    method Destroy(ghost w: Ledger)
      requires w.Valid() && Ptr(this) in w.holds
      modifies w`holds, w.pending.Keys
      ensures w.Valid() && w.holds == old(w.holds) - {Ptr(this)}
    {
      assert Ptr(this).Target() == refcnt;
      Release(Ptr(this), refcnt, w);
    }

    /** Bind(inSharedPtr), also operator=.  Handles with equal object pointers are left alone,
        whatever their counters. */
    method Bind(x: SharedPtr, ghost w: Ledger)
      requires w.Valid() && Ptr(this) in w.holds && Ptr(x) in w.holds
      modifies this, w`holds, w.pending.Keys
      ensures w.Valid() <==> old(mpRep == x.mpRep || refcnt == x.refcnt || HasRoom(x.refcnt))
      ensures w.holds == old(w.holds)[Ptr(this) := refcnt]
      ensures mpRep == x.mpRep && x.mpRep == old(x.mpRep) && x.refcnt == old(x.refcnt)
      ensures refcnt == if old(mpRep) == x.mpRep then old(refcnt) else x.refcnt
      ensures refcnt == x.refcnt <==> old(mpRep) != x.mpRep || old(refcnt) == x.refcnt
    {
      assert Ptr(this).Target() == refcnt && Ptr(x).Target() == x.refcnt;
      if mpRep == x.mpRep { return; }
      assert refcnt != null ==> w.Settled(refcnt);
      Release(Ptr(this), refcnt, w);
      w.HandleKeepsAlive(Ptr(x));
      refcnt := x.refcnt;
      mpRep := x.mpRep;
      Acquire(Ptr(this), refcnt, w);
    }

    /** Bind(ptr, in_refcnt): takes over a reference the caller took on in_refcnt. */
    method BindRaw(p: Address, c: RefCounter?, ghost w: Ledger)
      requires w.Valid() && Ptr(this) in w.holds && (c != null ==> c in w.pending && w.pending[c] > 0)
      modifies this, w, w.pending.Keys
      ensures w.Valid() && w.holds == old(w.holds)[Ptr(this) := c] && w.pending == Taken(old(w.pending), c)
      ensures mpRep == p && refcnt == c
    {
      assert Ptr(this).Target() == refcnt;
      Release(Ptr(this), refcnt, w);
      mpRep := p;
      refcnt := c;
      Adopt(Ptr(this), c, w);
    }

    method Unbind(ghost w: Ledger)
      requires w.Valid() && Ptr(this) in w.holds
      modifies this, w, w.pending.Keys
      ensures w.Valid() && w.holds == old(w.holds)[Ptr(this) := null] && w.pending == old(w.pending)
      ensures mpRep == NULL && refcnt == null
    {
      BindRaw(NULL, null, w);
    }
  }

  class MemFrag {
    var ptr: Address
    var len: nat
    var capacity: nat
    var refcnt: RefCounter?

    constructor Default(ghost w: Ledger)
      requires w.Valid()
      modifies w
      ensures w.Valid() && w.holds == old(w.holds)[Frag(this) := null] && w.pending == old(w.pending)
      ensures ptr == NULL && len == 0 && capacity == 0 && refcnt == null
    {
      ptr, len, capacity, refcnt := NULL, 0, 0, null;
      new;
      Adopt(Frag(this), null, w);
    }

    /** OsclRefCounterMemFrag(m, r, in_capacity): the reference was taken by the caller. */
    constructor (ptr: Address, len: nat, c: RefCounter?, capacity: nat, ghost w: Ledger)
      requires w.Valid() && (c != null ==> c in w.pending && w.pending[c] > 0)
      modifies w
      ensures w.Valid() && w.holds == old(w.holds)[Frag(this) := c] && w.pending == Taken(old(w.pending), c)
      ensures this.ptr == ptr && this.len == len && this.capacity == capacity && refcnt == c
    {
      this.ptr, this.len, this.capacity, refcnt := ptr, len, capacity, c;
      new;
      Adopt(Frag(this), c, w);
    }

    constructor Copy(x: MemFrag, ghost w: Ledger)
      requires w.Valid() && Frag(x) in w.holds
      modifies w`holds, w.pending.Keys
      ensures w.Valid() <==> old(HasRoom(x.refcnt))
      ensures w.holds == old(w.holds)[Frag(this) := x.refcnt]
      ensures ptr == x.ptr && len == x.len && capacity == x.capacity && refcnt == x.refcnt
    {
      ptr, len, capacity, refcnt := x.ptr, x.len, x.capacity, x.refcnt;
      new;
      assert Frag(x).Target() == x.refcnt;
      w.HandleKeepsAlive(Frag(x));
      Acquire(Frag(this), refcnt, w);
    }

    /** The destructor. */
    method Destroy(ghost w: Ledger)
      requires w.Valid() && Frag(this) in w.holds
      modifies w`holds, w.pending.Keys
      ensures w.Valid() && w.holds == old(w.holds) - {Frag(this)}
    {
      assert Frag(this).Target() == refcnt;
      Release(Frag(this), refcnt, w);
    }

    method TakeFields(x: MemFrag)
      modifies this
      ensures ptr == x.ptr && len == x.len && capacity == x.capacity && refcnt == x.refcnt
    {
      ptr, len := x.ptr, x.len;
      refcnt := x.refcnt;
      capacity := x.capacity;
    }

    /** operator=; a fragment assigned to itself keeps its reference. */
    method Assign(x: MemFrag, ghost w: Ledger)
      requires w.Valid() && Frag(this) in w.holds && Frag(x) in w.holds
      modifies this, w`holds, w.pending.Keys
      ensures w.Valid() <==> old(refcnt == x.refcnt || HasRoom(x.refcnt))
      ensures w.holds == old(w.holds)[Frag(this) := refcnt]
      ensures ptr == x.ptr && len == x.len && capacity == x.capacity && refcnt == x.refcnt
      ensures x.ptr == old(x.ptr) && x.len == old(x.len) && x.capacity == old(x.capacity) && x.refcnt == old(x.refcnt)
    {
      assert Frag(this).Target() == refcnt && Frag(x).Target() == x.refcnt;
      if this == x { return; }
      assert refcnt != null ==> w.Settled(refcnt);
      Release(Frag(this), refcnt, w);
      w.HandleKeepsAlive(Frag(x));
      TakeFields(x);
      Acquire(Frag(this), refcnt, w);
    }
  }

  /** Binding to a handle with the same object pointer and another counter keeps the own counter. */
  method BoundButNotShared() returns (a: SharedPtr, b: SharedPtr)
    ensures a.mpRep == b.mpRep && a.refcnt != b.refcnt
  {
    var w := new Ledger();
    var c := w.NewCounter();
    a := new SharedPtr(1, c, w);
    var d := w.NewCounter();
    b := new SharedPtr(1, d, w);
    a.Bind(b, w);
  }
}
