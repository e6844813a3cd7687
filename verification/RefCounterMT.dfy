/** OsclRefCounterMTDA and OsclRefCounterMTSA (oscl_refcounter.h): addRef and removeRef on one
    counter, called by any number of threads, as interleaved steps.

    A step is one access to the shared counter: taking the lock, reading refcnt into the
    thread's register, writing refcnt from the register, releasing the lock, freeing the
    buffer, deleting the counter; getCount is a read without the lock.  An access after the
    counter is gone, or a second free, is not ruled out by the model: it sets fault, and the
    theorems show that no run sets it. */
module RefCounterMT {
  import opened Words

  /** Where a thread is inside addRef or removeRef. */
  datatype Pc =
    | Idle
    | AddLock      // about to lock
    | AddRead      // holds the lock, about to read refcnt
    | AddWrite     // has read refcnt, about to write it back incremented
    | AddUnlock    // has written, about to unlock
    | RemLock      // about to lock
    | RemRead      // holds the lock, about to read refcnt
    | RemWrite     // has read refcnt, about to write it back decremented and to test what it writes
    | RemUnlock    // the test found other references, about to unlock
    | RemFree      // the test found zero, about to destroy the buffer
    | RemDelete    // the buffer was not the counter itself, about to delete the counter
    | CountRead    // in getCount, about to read refcnt

  /** owned: the references a thread holds and has not offered to removeRef.
      reg: what the thread last read from refcnt, while it matters. */
  datatype Thread = Thread(pc: Pc, owned: nat, reg: int)

  /** NOBODY, or the index of the thread that holds the lock. */
  const NOBODY: int := -1

  /** embedded: the tracked buffer is the counter itself (ptr == this).
      zeros: how often a removeRef has taken the branch for a count of zero. */
  datatype State = State(threads: seq<Thread>, refcnt: int, holder: int, embedded: bool,
                         bufferAlive: bool, counterAlive: bool, zeros: nat, fault: bool)

  datatype Action =
    | Spawn                      // a thread appears, holding nothing
    | Give(from: nat, to: nat)   // one thread hands a reference to another
    | CallAdd(t: nat)
    | CallRemove(t: nat)
    | CallCount(t: nat)
    | Step(t: nat)

  predicate IdleOwner(s: State, t: nat) {
    t < |s.threads| && s.threads[t].pc == Idle && s.threads[t].owned > 0
  }

  /** Callers own a reference when they call, and a thread runs one call at a time.  Locking
      waits for the lock; a destroyed lock keeps nobody waiting. */
  predicate Enabled(s: State, a: Action) {
    match a
    case Spawn => true
    case Give(from, to) => IdleOwner(s, from) && to < |s.threads|
    case CallAdd(t) => IdleOwner(s, t)
    case CallRemove(t) => IdleOwner(s, t)
    case CallCount(t) => IdleOwner(s, t)
    case Step(t) =>
      && t < |s.threads| && s.threads[t].pc != Idle
      && (s.threads[t].pc == AddLock || s.threads[t].pc == RemLock ==> s.holder == NOBODY || !s.counterAlive)
  }

  function Put(s: State, t: nat, pc: Pc, owned: nat): State
    requires t < |s.threads|
  {
    s.(threads := s.threads[t := Thread(pc, owned, 0)])
  }

  /** Where thread t is after its next access. */
  function Moved(s: State, t: nat): Thread
    requires t < |s.threads|
  {
    var owned, reg := s.threads[t].owned, s.threads[t].reg;
    match s.threads[t].pc
    case AddLock => Thread(AddRead, owned, 0)
    case AddRead => Thread(AddWrite, owned, s.refcnt)
    case AddWrite => Thread(AddUnlock, owned, 0)
    case AddUnlock => Thread(Idle, owned + 1, 0)
    case RemLock => Thread(RemRead, owned, 0)
    case RemRead => Thread(RemWrite, owned, s.refcnt)
    case RemWrite => Thread(if U32(reg - 1) == 0 then RemFree else RemUnlock, owned, 0)
    case RemFree => Thread(if s.embedded then Idle else RemDelete, owned, 0)
    case CountRead => Thread(Idle, owned, s.refcnt)
    case _ => Thread(Idle, owned, 0)
  }

  /** One access of thread t to the counter. */
  function Access(s0: State, t: nat): State
    requires Enabled(s0, Step(t))
  {
    var s := s0.(threads := s0.threads[t := Moved(s0, t)], fault := s0.fault || !s0.counterAlive);
    match s0.threads[t].pc
    case AddLock => s.(holder := t)
    case AddWrite => s.(refcnt := U32(s0.threads[t].reg + 1))
    case AddUnlock => s.(holder := NOBODY)
    case RemLock => s.(holder := t)
    case RemWrite =>
      var n := U32(s0.threads[t].reg - 1);
      s.(refcnt := n, zeros := if n == 0 then s.zeros + 1 else s.zeros)
    case RemUnlock => s.(holder := NOBODY)
    case RemFree =>
      s.(fault := s.fault || !s.bufferAlive, bufferAlive := false, counterAlive := s.counterAlive && !s.embedded)
    case RemDelete => s.(counterAlive := false)
    case _ => s
  }

  function Next(s: State, a: Action): State
    requires Enabled(s, a)
  {
    match a
    case Spawn => s.(threads := s.threads + [Thread(Idle, 0, 0)])
    case Give(from, to) =>
      var s' := Put(s, from, Idle, s.threads[from].owned - 1);
      s'.(threads := s'.threads[to := s'.threads[to].(owned := s'.threads[to].owned + 1)])
    case CallAdd(t) => Put(s, t, AddLock, s.threads[t].owned)
    case CallRemove(t) => Put(s, t, RemLock, s.threads[t].owned - 1)
    case CallCount(t) => Put(s, t, CountRead, s.threads[t].owned)
    case Step(t) => Access(s, t)
  }

  /** A new counter: count one, the creating thread owns that reference. */
  function Start(embedded: bool): State {
    State([Thread(Idle, 1, 0)], 1, NOBODY, embedded, true, true, 0, false)
  }

  // ---------- Counting references ----------

  /** References thread t accounts for: those it owns, one its addRef has counted but not yet
      returned, one it gave to removeRef that is not yet uncounted. */
  function Weight(th: Thread): nat {
    th.owned + if th.pc == AddUnlock || th.pc == RemLock || th.pc == RemRead || th.pc == RemWrite then 1 else 0
  }

  /** The sum of f over the first n threads. */
  function SumOf(f: Thread -> nat, ths: seq<Thread>, n: nat): nat
    requires n <= |ths|
  {
    if n == 0 then 0 else SumOf(f, ths, n - 1) + f(ths[n - 1])
  }

  /** References accounted for. */
  function Total(ths: seq<Thread>): nat {
    SumOf(Weight, ths, |ths|)
  }

  lemma {:induction false} SumOfPut(f: Thread -> nat, ths: seq<Thread>, t: nat, th: Thread, n: nat)
    requires t < |ths| && n <= |ths|
    ensures SumOf(f, ths[t := th], n) == SumOf(f, ths, n) + if t < n then f(th) - f(ths[t]) else 0
  {
    if n == 0 {
    } else {
      SumOfPut(f, ths, t, th, n - 1);
    }
  }

  lemma TotalPut(ths: seq<Thread>, t: nat, th: Thread)
    requires t < |ths|
    ensures Total(ths[t := th]) == Total(ths) - Weight(ths[t]) + Weight(th)
  {
    SumOfPut(Weight, ths, t, th, |ths|);
  }

  lemma {:induction false} SumOfPrefix(f: Thread -> nat, ths: seq<Thread>, ths': seq<Thread>, n: nat)
    requires n <= |ths| <= |ths'| && ths == ths'[..|ths|]
    ensures SumOf(f, ths', n) == SumOf(f, ths, n)
  {
    if n == 0 {
    } else {
      SumOfPrefix(f, ths, ths', n - 1);
    }
  }

  lemma TotalAppend(ths: seq<Thread>, th: Thread)
    ensures Total(ths + [th]) == Total(ths) + Weight(th)
  {
    SumOfPrefix(Weight, ths, ths + [th], |ths|);
  }

  lemma {:induction false} TermInSum(f: Thread -> nat, ths: seq<Thread>, t: nat, n: nat)
    requires t < n <= |ths|
    ensures f(ths[t]) <= SumOf(f, ths, n)
  {
    if t == n - 1 {
    } else {
      TermInSum(f, ths, t, n - 1);
    }
  }

  // ---------- The invariant ----------

  predicate Holding(pc: Pc) {
    pc in {AddRead, AddWrite, AddUnlock, RemRead, RemWrite, RemUnlock, RemFree, RemDelete}
  }

  predicate Destroying(pc: Pc) {
    pc == RemFree || pc == RemDelete
  }

  /** While references remain: nothing is destroyed, the lock knows its holder, what a thread has
      read from refcnt under the lock is still there, and a thread inside addRef or getCount
      still owns the reference it called with. */
  predicate LiveThread(s: State, t: nat)
    requires t < |s.threads|
  {
    var th := s.threads[t];
    && !Destroying(th.pc)
    && (Holding(th.pc) <==> s.holder == t)
    && (th.pc == AddWrite || th.pc == RemWrite ==> th.reg == s.refcnt)
    && (th.pc == AddLock || th.pc == AddRead || th.pc == AddWrite || th.pc == CountRead ==> th.owned > 0)
  }

  /** Once no reference remains: only the thread that found zero is still at work. */
  predicate LastThread(s: State, t: nat)
    requires t < |s.threads|
  {
    var th := s.threads[t];
    && th.owned == 0
    && if s.counterAlive && s.holder == t
       then th.pc == (if s.bufferAlive then RemFree else RemDelete)
       else th.pc == Idle
  }

  predicate Inv(s: State) {
    && !s.fault
    && s.refcnt == U32(Total(s.threads))
    && if Total(s.threads) > 0 then
         && s.counterAlive && s.bufferAlive && s.zeros == 0
         && NOBODY <= s.holder < |s.threads|
         && forall t {:trigger LiveThread(s, t)} :: 0 <= t < |s.threads| ==> LiveThread(s, t)
       else
         && s.zeros == 1
         && (s.counterAlive ==> 0 <= s.holder < |s.threads| && (s.bufferAlive || !s.embedded))
         && (!s.counterAlive ==> !s.bufferAlive)
         && forall t {:trigger LastThread(s, t)} :: 0 <= t < |s.threads| ==> LastThread(s, t)
  }

  /** At most 2^32 references: with one more, WrapFaults shows, the protocol fails. */
  predicate Representable(s: State) {
    Total(s.threads) <= WORD
  }

  // ---------- What one step keeps ----------

  lemma AccessTotal(s: State, t: nat)
    requires Enabled(s, Step(t))
    ensures Total(Access(s, t).threads) == Total(s.threads)
          + (if s.threads[t].pc == AddWrite then 1 else if s.threads[t].pc == RemWrite then -1 else 0)
  {
    TotalPut(s.threads, t, Moved(s, t));
  }

  /** Conservation: only the increment and the decrement change the number of references. */
  lemma NextTotal(s: State, a: Action)
    requires Enabled(s, a)
    ensures Total(Next(s, a).threads) == Total(s.threads)
          + (if a.Step? && s.threads[a.t].pc == AddWrite then 1
             else if a.Step? && s.threads[a.t].pc == RemWrite then -1
             else 0)
  {
    match a
    case Spawn => TotalAppend(s.threads, Thread(Idle, 0, 0));
    case Give(from, to) =>
      var s' := Put(s, from, Idle, s.threads[from].owned - 1);
      TotalPut(s.threads, from, Thread(Idle, s.threads[from].owned - 1, 0));
      TotalPut(s'.threads, to, s'.threads[to].(owned := s'.threads[to].owned + 1));
    case CallAdd(t) => TotalPut(s.threads, t, Thread(AddLock, s.threads[t].owned, 0));
    case CallRemove(t) => TotalPut(s.threads, t, Thread(RemLock, s.threads[t].owned - 1, 0));
    case CallCount(t) => TotalPut(s.threads, t, Thread(CountRead, s.threads[t].owned, 0));
    case Step(t) => AccessTotal(s, t);
  }

  /** With the total at zero, every thread accounts for nothing. */
  lemma ZeroTotal(ths: seq<Thread>)
    requires Total(ths) == 0
    ensures forall t :: 0 <= t < |ths| ==> Weight(ths[t]) == 0
  {
    forall t | 0 <= t < |ths| ensures Weight(ths[t]) == 0 { TermInSum(Weight, ths, t, |ths|); }
  }

  /** The calls: no access to the counter, and the callers own what they call with. */
  lemma CallKeepsInv(s: State, a: Action)
    requires Inv(s) && Enabled(s, a) && !a.Step?
    ensures Inv(Next(s, a))
  {
    var s' := Next(s, a);
    NextTotal(s, a);
    if Total(s.threads) > 0 {
      forall t | 0 <= t < |s'.threads| ensures LiveThread(s', t) {
        if t < |s.threads| { assert LiveThread(s, t); }
      }
    } else {
      assert a.Spawn? by {
        forall t: nat | t < |s.threads| ensures s.threads[t].owned == 0 { assert LastThread(s, t); }
      }
      forall t | 0 <= t < |s'.threads| ensures LastThread(s', t) {
        if t < |s.threads| { assert LastThread(s, t); }
      }
    }
  }

  /** What is written under the lock is the right count. */
  lemma StepCounts(s: State, t: nat)
    requires Enabled(s, Step(t)) && LiveThread(s, t) && s.refcnt == U32(Total(s.threads))
    ensures Next(s, Step(t)).refcnt == U32(Total(Next(s, Step(t)).threads))
  {
    AccessTotal(s, t);
    U32Adds(Total(s.threads), 1);
    U32Adds(Total(s.threads), -1);
  }

  lemma LiveThreadKept(s: State, t: nat, u: nat)
    requires Inv(s) && Enabled(s, Step(t)) && Representable(s) && u < |s.threads|
    requires Total(s.threads) > 0 && Total(Next(s, Step(t)).threads) > 0
    ensures LiveThread(Next(s, Step(t)), u)
  {
    assert LiveThread(s, t) && LiveThread(s, u);
    AccessTotal(s, t);
  }

  /** A step while references remain and another is left afterwards, or it is no decrement. */
  lemma LiveStepKeepsInv(s: State, t: nat)
    requires Inv(s) && Enabled(s, Step(t)) && Representable(s)
    requires Total(s.threads) > 0 && Total(Next(s, Step(t)).threads) > 0
    ensures Inv(Next(s, Step(t)))
  {
    var s' := Next(s, Step(t));
    assert LiveThread(s, t);
    StepCounts(s, t);
    AccessTotal(s, t);
    forall u {:trigger LiveThread(s', u)} | 0 <= u < |s'.threads| ensures LiveThread(s', u) {
      LiveThreadKept(s, t, u);
    }
  }

  /** The decrement that finds zero: everybody else is idle and owns nothing. */
  lemma LastDecrementKeepsInv(s: State, t: nat)
    requires Inv(s) && Enabled(s, Step(t)) && Representable(s)
    requires Total(s.threads) > 0 && Total(Next(s, Step(t)).threads) == 0
    ensures Inv(Next(s, Step(t)))
  {
    var s' := Next(s, Step(t));
    assert LiveThread(s, t);
    NextTotal(s, Step(t));
    ZeroTotal(s'.threads);
    forall u | 0 <= u < |s'.threads| ensures LastThread(s', u) {
      assert LiveThread(s, u) && Weight(s'.threads[u]) == 0;
    }
  }

  /** The two steps of destruction. */
  lemma DestroyStepKeepsInv(s: State, t: nat)
    requires Inv(s) && Enabled(s, Step(t)) && Total(s.threads) == 0
    ensures Inv(Next(s, Step(t)))
  {
    var s' := Next(s, Step(t));
    assert LastThread(s, t);
    NextTotal(s, Step(t));
    forall u | 0 <= u < |s'.threads| ensures LastThread(s', u) {
      assert LastThread(s, u);
    }
  }

  lemma NextKeepsInv(s: State, a: Action)
    requires Inv(s) && Enabled(s, a) && Representable(s)
    ensures Inv(Next(s, a))
  {
    if !a.Step? {
      CallKeepsInv(s, a);
    } else if Total(s.threads) == 0 {
      DestroyStepKeepsInv(s, a.t);
    } else if Total(Next(s, a).threads) > 0 {
      LiveStepKeepsInv(s, a.t);
    } else {
      LastDecrementKeepsInv(s, a.t);
    }
  }

  // ---------- Whole runs ----------

  ghost predicate IsRun(states: seq<State>, acts: seq<Action>) {
    && |states| == |acts| + 1
    && forall i :: 0 <= i < |acts| ==> Enabled(states[i], acts[i]) && states[i + 1] == Next(states[i], acts[i])
  }

  /** Every interleaving, also between the read and the write of one change, is safe with at most
      2^32 references: the count is right, and no access reaches a counter or buffer that is gone. */
  lemma {:induction false} RunIsSafe(states: seq<State>, acts: seq<Action>, embedded: bool)
    requires IsRun(states, acts) && states[0] == Start(embedded)
    requires forall i :: 0 <= i < |states| ==> Representable(states[i])
    ensures forall i :: 0 <= i < |states| ==>
      Inv(states[i]) && !states[i].fault && states[i].refcnt == U32(Total(states[i].threads))
    decreases |acts|
  {
    if acts == [] {
      assert SumOf(Weight, states[0].threads, 1) == SumOf(Weight, states[0].threads, 0) + 1;
    } else {
      var n := |acts| - 1;
      RunIsSafe(states[..|acts|], acts[..n], embedded);
      assert Inv(states[..|acts|][n]);
      NextKeepsInv(states[n], acts[n]);
      forall i | 0 <= i < |states|
        ensures Inv(states[i]) && !states[i].fault && states[i].refcnt == U32(Total(states[i].threads))
      {
        if i < |acts| { assert states[..|acts|][i] == states[i]; }
      }
    }
  }

  /** The index-th action is a removeRef that finds zero. */
  predicate FindsZero(s: State, a: Action) {
    Enabled(s, a) && a.Step? && s.threads[a.t].pc == RemWrite && Moved(s, a.t).pc == RemFree
  }

  function ZeroesFound(states: seq<State>, acts: seq<Action>): nat
    requires |acts| <= |states|
  {
    if acts == [] then 0
    else ZeroesFound(states, acts[..|acts| - 1]) + if FindsZero(states[|acts| - 1], acts[|acts| - 1]) then 1 else 0
  }

  lemma NextZeros(s: State, a: Action)
    requires Enabled(s, a)
    ensures Next(s, a).zeros == s.zeros + if FindsZero(s, a) then 1 else 0
  {
  }

  lemma {:induction false} ZeroesAreCounted(states: seq<State>, acts: seq<Action>, k: nat)
    requires IsRun(states, acts) && k <= |acts|
    ensures states[k].zeros == states[0].zeros + ZeroesFound(states, acts[..k])
  {
    if k == 0 {
    } else {
      ZeroesAreCounted(states, acts, k - 1);
      assert acts[..k][..k - 1] == acts[..k - 1];
      NextZeros(states[k - 1], acts[k - 1]);
    }
  }

  /** Over a whole run exactly one removeRef takes the destroy branch once the references are
      gone, and none does before. */
  lemma {:induction false} DestroyedOnce(states: seq<State>, acts: seq<Action>, embedded: bool)
    requires IsRun(states, acts) && states[0] == Start(embedded)
    requires forall i :: 0 <= i < |states| ==> Representable(states[i])
    ensures ZeroesFound(states, acts) == if Total(states[|acts|].threads) == 0 then 1 else 0
  {
    RunIsSafe(states, acts, embedded);
    ZeroesAreCounted(states, acts, |acts|);
    assert acts[..|acts|] == acts;
  }

  lemma MutualExclusion(s: State, t: nat, u: nat)
    requires Inv(s) && t < |s.threads| && u < |s.threads|
    requires Holding(s.threads[t].pc) && Holding(s.threads[u].pc)
    ensures t == u
  {
    if Total(s.threads) > 0 {
      assert LiveThread(s, t) && LiveThread(s, u);
    } else {
      assert LastThread(s, t) && LastThread(s, u);
    }
  }

  /** After the counter is gone no thread has anything left to do with it. */
  lemma NothingAfterDestruction(s: State, a: Action)
    requires Inv(s) && !s.counterAlive && Enabled(s, a)
    ensures a.Spawn?
  {
    forall t | 0 <= t < |s.threads| ensures s.threads[t].pc == Idle && s.threads[t].owned == 0 {
      assert LastThread(s, t);
    }
  }

  /** Calls in progress are never stuck: the holder can move, or the lock is free. */
  lemma Progress(s: State, t: nat) returns (u: nat)
    requires Inv(s) && t < |s.threads| && s.threads[t].pc != Idle
    ensures Enabled(s, Step(u))
  {
    u := t;
    if Total(s.threads) > 0 {
      assert LiveThread(s, t);
      if s.holder != NOBODY {
        assert LiveThread(s, s.holder);
        u := s.holder;
      }
    } else {
      assert LastThread(s, t);
    }
  }

  /** Accesses the current call of a thread can still make. */
  function StepsLeft(th: Thread): nat {
    match th.pc
    case Idle => 0
    case AddLock => 4
    case AddRead => 3
    case AddWrite => 2
    case AddUnlock => 1
    case RemLock => 5
    case RemRead => 4
    case RemWrite => 3
    case RemUnlock => 1
    case RemFree => 2
    case RemDelete => 1
    case CountRead => 1
  }

  /** Each step uses up work, so calls in progress end after at most that many steps. */
  lemma StepsRunOut(s: State, t: nat)
    requires Enabled(s, Step(t))
    ensures SumOf(StepsLeft, Next(s, Step(t)).threads, |s.threads|) < SumOf(StepsLeft, s.threads, |s.threads|)
  {
    SumOfPut(StepsLeft, s.threads, t, Moved(s, t), |s.threads|);
  }

  lemma HolderIsBusy(s: State)
    requires Inv(s) && s.counterAlive && s.holder != NOBODY
    ensures 0 <= s.holder < |s.threads| && s.threads[s.holder].pc != Idle
  {
    if Total(s.threads) > 0 {
      assert LiveThread(s, s.holder);
    } else {
      assert LastThread(s, s.holder);
    }
  }

  /** With no call in progress the counter and its buffer are there exactly while somebody
      owns a reference: nothing leaks and nothing dies early. */
  lemma QuietMeansExact(s: State)
    requires Inv(s) && forall t :: 0 <= t < |s.threads| ==> s.threads[t].pc == Idle
    ensures s.counterAlive == s.bufferAlive == (exists t :: 0 <= t < |s.threads| && s.threads[t].owned > 0)
    ensures s.counterAlive ==> s.holder == NOBODY
  {
    if Total(s.threads) == 0 {
      forall t | 0 <= t < |s.threads| ensures s.threads[t].owned == 0 && !(s.counterAlive && s.holder == t) {
        assert LastThread(s, t);
      }
      if s.counterAlive { HolderIsBusy(s); }
    } else {
      if s.holder != NOBODY { HolderIsBusy(s); }
      forall t | 0 <= t < |s.threads| ensures !Holding(s.threads[t].pc) && s.holder != t { assert LiveThread(s, t); }
      if forall t :: 0 <= t < |s.threads| ==> s.threads[t].owned == 0 { AllZero(s.threads, |s.threads|); }
    }
  }

  lemma {:induction false} AllZero(ths: seq<Thread>, n: nat)
    requires n <= |ths| && forall t :: 0 <= t < n ==> Weight(ths[t]) == 0
    ensures SumOf(Weight, ths, n) == 0
  {
    if n == 0 {
    } else {
      AllZero(ths, n - 1);
    }
  }

  /** Only the two steps of destruction are left once no reference remains. */
  lemma BusyMeansLive(s: State, t: nat)
    requires Inv(s) && t < |s.threads| && s.threads[t].pc != Idle && !Destroying(s.threads[t].pc)
    ensures Total(s.threads) > 0 && LiveThread(s, t)
  {
    var live, last := LiveThread(s, t), LastThread(s, t);
  }

  /** getCount needs no lock: what it reads is the number of references at that instant, also
      while another thread is between the read and the write of a change. */
  lemma CountReadIsExact(s: State, t: nat)
    requires Inv(s) && Representable(s) && Enabled(s, Step(t)) && s.threads[t].pc == CountRead
    ensures var s' := Next(s, Step(t));
            && s'.threads[t].reg == U32(Total(s.threads)) && Total(s.threads) > 0
            && s' == s.(threads := s'.threads) && Total(s'.threads) == Total(s.threads)
  {
    NextTotal(s, Step(t));
    BusyMeansLive(s, t);
  }

  // ---------- Where a uint32 count stops being enough ----------

  /** Whatever the number of references, the decrement finds zero exactly when that number is one
      more than a multiple of the word. */
  lemma DecrementFindsZeroWhen(s: State, t: nat)
    requires Inv(s) && Enabled(s, Step(t)) && s.threads[t].pc == RemWrite
    ensures FindsZero(s, Step(t)) <==> Total(s.threads) % WORD == 1
    ensures Representable(s) ==> (FindsZero(s, Step(t)) <==> Total(s.threads) == 1)
  {
    BusyMeansLive(s, t);
  }

  /** A run with one thread goes on with one more action, with at most b references throughout. */
  lemma Extended(states: seq<State>, acts: seq<Action>, a: Action, b: nat)
    returns (states': seq<State>, acts': seq<Action>)
    requires IsRun(states, acts) && Enabled(states[|acts|], a)
    requires forall i :: 0 <= i < |states| ==> Total(states[i].threads) <= b
    requires var s := Next(states[|acts|], a); |s.threads| == 1 && Weight(s.threads[0]) <= b
    ensures IsRun(states', acts') && states'[0] == states[0] && states'[|acts'|] == Next(states[|acts|], a)
    ensures forall i :: 0 <= i < |states'| ==> Total(states'[i].threads) <= b
  {
    var s := Next(states[|acts|], a);
    TotalOfOne(s.threads[0]);
    assert s.threads == [s.threads[0]];
    states', acts' := states + [s], acts + [a];
  }

  lemma TotalOfOne(th: Thread)
    ensures Total([th]) == Weight(th)
  {
    assert SumOf(Weight, [th], 1) == SumOf(Weight, [th], 0) + Weight(th);
  }

  /** One thread, holding n references, with no call in progress. */
  function Held(n: nat): State {
    State([Thread(Idle, n, 0)], U32(n), NOBODY, true, true, true, 0, false)
  }

  /** n references are reached from a new counter by n - 1 calls of addRef. */
  lemma {:induction false} ManyHeld(n: nat) returns (states: seq<State>, acts: seq<Action>)
    requires n > 0
    ensures IsRun(states, acts) && states[0] == Start(true) && states[|acts|] == Held(n)
    ensures forall i :: 0 <= i < |states| ==> Total(states[i].threads) <= n
  {
    if n == 1 {
      TotalOfOne(Thread(Idle, 1, 0));
      states, acts := [Start(true)], [];
    } else {
      states, acts := ManyHeld(n - 1);
      U32Adds(n - 1, 1);
      states, acts := Extended(states, acts, CallAdd(0), n);
      states, acts := Extended(states, acts, Step(0), n);
      states, acts := Extended(states, acts, Step(0), n);
      states, acts := Extended(states, acts, Step(0), n);
      states, acts := Extended(states, acts, Step(0), n);
    }
  }

  /** The bound is tight: with one reference more than 2^32 a removeRef finds zero and destroys a
      counter that is still owned 2^32 times. */
  lemma WrapDestroysEarly() returns (states: seq<State>, acts: seq<Action>)
    ensures IsRun(states, acts) && states[0] == Start(true)
    ensures forall i :: 0 <= i < |states| ==> Total(states[i].threads) <= WORD + 1
    ensures states[|acts|] == State([Thread(Idle, WORD, 0)], 0, 0, true, false, false, 1, false)
  {
    states, acts := ManyHeld(WORD + 1);
    assert U32(WORD + 1) == 1;
    states, acts := Extended(states, acts, CallRemove(0), WORD + 1);
    states, acts := Extended(states, acts, Step(0), WORD + 1);
    states, acts := Extended(states, acts, Step(0), WORD + 1);
    states, acts := Extended(states, acts, Step(0), WORD + 1);
    states, acts := Extended(states, acts, Step(0), WORD + 1);
  }

  /** The owner's next call then reaches the destroyed counter. */
  lemma WrapFaults() returns (states: seq<State>, acts: seq<Action>)
    ensures IsRun(states, acts) && states[0] == Start(true) && states[|acts|].fault
    ensures forall i :: 0 <= i < |states| ==> Total(states[i].threads) <= WORD + 1
  {
    states, acts := WrapDestroysEarly();
    states, acts := Extended(states, acts, CallAdd(0), WORD + 1);
    states, acts := Extended(states, acts, Step(0), WORD + 1);
  }
}
