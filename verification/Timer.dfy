/** OsclTimer (oscl_timer.h): entries on a list, changed in place by each tick, and the requests
    and cancels that callbacks make, which wait until the tick is over. */
module CycleTimer {
  import opened TimerModel
  import opened Jitter
  import opened TimerLaws
  import opened TimerPromises
  import opened Words

  class TimerEntry {
    var iCounter: int
    var iTimerID: int
    var iParam: int
    var iObserver: nat
    var iRecurring: bool
    var iOrigCounter: int
    ghost var serial: nat

    constructor () {}

    ghost function View(): Entry
      reads this
    {
      Entry(serial, iTimerID, iParam, iCounter, iObserver, iRecurring, iOrigCounter)
    }
  }

  ghost function Views(es: seq<TimerEntry>): (r: seq<Entry>)
    reads es
    ensures |r| == |es|
  {
    seq(|es|, i requires 0 <= i < |es| reads es => es[i].View())
  }

  /** What the waiting entries ask for. */
  ghost function AddViews(es: seq<TimerEntry>): (r: seq<Cmd>)
    reads es
    ensures |r| == |es|
  {
    seq(|es|, i requires 0 <= i < |es| reads es =>
      Request(es[i].iTimerID, es[i].iParam, es[i].iCounter, es[i].iObserver, es[i].iRecurring))
  }

  ghost function CancelViews(es: seq<TimerEntry>): (r: seq<Cmd>)
    reads es
    ensures |r| == |es|
  {
    seq(|es|, i requires 0 <= i < |es| reads es => Cancel(es[i].iTimerID, es[i].iParam))
  }

  ghost function Members(es: seq<TimerEntry>): set<TimerEntry> {
    set e | e in es
  }

  ghost predicate Apart(es: seq<TimerEntry>, i: nat, j: nat) {
    i < j < |es| ==> es[i] != es[j]
  }

  ghost predicate Distinct(es: seq<TimerEntry>) {
    forall i, j {:trigger Apart(es, i, j)} :: 0 <= i < j ==> Apart(es, i, j)
  }

  lemma DropMembers(es: seq<TimerEntry>, i: nat)
    requires Distinct(es) && i < |es|
    ensures Distinct(es[..i] + es[i + 1..]) && Members(es[..i] + es[i + 1..]) == Members(es) - {es[i]}
  {
    var r := es[..i] + es[i + 1..];
    forall e | e in Members(es) - {es[i]} ensures e in r {
      var j :| 0 <= j < |es| && es[j] == e;
      assert r[if j < i then j else j - 1] == e;
    }
    forall j, k | 0 <= j < k ensures Apart(r, j, k) {
      assert Apart(es, if j < i then j else j + 1, if k < i then k else k + 1);
    }
    forall j | 0 <= j < |r| ensures r[j] != es[i] {
      assert Apart(es, j, i) && Apart(es, i, j + 1);
    }
  }

  lemma AppendMembers(es: seq<TimerEntry>, e: TimerEntry)
    requires Distinct(es) && e !in Members(es)
    ensures Distinct(es + [e]) && Members(es + [e]) == Members(es) + {e}
  {
    var r := es + [e];
    assert r[|es|] == e;
    forall d | d in es ensures d in r {
      var j :| 0 <= j < |es| && es[j] == d;
      assert r[j] == d;
    }
    forall j, k | 0 <= j < k ensures Apart(r, j, k) {
      assert Apart(es, j, k);
      assert j < |es| ==> es[j] in Members(es);
    }
  }

  lemma TailMembers(es: seq<TimerEntry>, k: nat)
    requires Distinct(es) && k < |es|
    ensures Members(es[k..]) == Members(es[k + 1..]) + {es[k]} && es[k] !in Members(es[k + 1..])
  {
    assert es[k..] == [es[k]] + es[k + 1..];
    forall j | k < j < |es| ensures es[j] != es[k] { assert Apart(es, k, j); }
  }

  /** The active object that runs the tick: at rest, or due after a delay in microseconds. */
  datatype Alarm = Off | Armed(delay: int)

  /** The longest cycle that fits as often into a second, in microseconds. */
  function CyclePeriod(frequency: int): (r: int)
    requires frequency > 0
    ensures frequency * r <= 1000000 < frequency * (r + 1) && 0 <= r <= 1000000
  {
    var q := 1000000 / frequency;
    QuotientFits(frequency, q);
    QuotientBounds(frequency, q);
    q
  }

  lemma QuotientFits(d: int, q: int)
    requires d > 0 && q == 1000000 / d
    ensures d * q <= 1000000 < d * (q + 1)
  {
  }

  lemma QuotientBounds(d: int, q: int)
    requires d > 0 && d * q <= 1000000 < d * (q + 1)
    ensures 0 <= q <= 1000000
  {
    MulBounds(d, q + 1);
    if q > 1000000 { MulBounds(q, d); }
  }

  class OsclTimer {
    /** The global observer; 0 if there is none. */
    var iObserver: nat
    var iEntries: seq<TimerEntry>
    var iEntriesWaitingToAdd: seq<TimerEntry>
    var iEntriesWaitingToCancel: seq<TimerEntry>
    var iInCallback: bool
    var iCyclePeriod: int
    var iTickCountPeriod: int
    var iExpectedTimeout: Word
    var iTimer: Alarm
    ghost var history: State
    /** The calls of TimeoutOccurred so far, in order. */
    ghost var calls: seq<Call>
    /** Entries the allocator has handed out and not taken back. */
    ghost var heap: set<TimerEntry>
    /** The schedule that iExpectedTimeout follows. */
    ghost var plan: Plan

    /** The list is what the history says it is, and its entries are allocated. */
    ghost predicate ListOk()
      reads this, iEntries
    {
      && Distinct(iEntries) && Members(iEntries) <= heap
      && SerialsKnown(history) && history.entries == Views(iEntries)
    }

    /** What is allocated: the list and the two waiting lists, which have nothing in common. */
    ghost predicate Accounted()
      reads this
    {
      && Distinct(iEntries) && Distinct(iEntriesWaitingToAdd) && Distinct(iEntriesWaitingToCancel)
      && Members(iEntries) !! Members(iEntriesWaitingToAdd) !! Members(iEntriesWaitingToCancel)
      && heap == Members(iEntries) + Members(iEntriesWaitingToAdd) + Members(iEntriesWaitingToCancel)
    }

    /** Between the parts of a tick: nothing waits, and nothing is allocated but the list. */
    ghost predicate Ready()
      reads this, iEntries
    {
      && ListOk() && Accounted()
      && !iInCallback && iEntriesWaitingToAdd == [] && iEntriesWaitingToCancel == []
    }

    /** The observers were called as the history says, and the history obeys the law of expiry. */
    ghost predicate Honest()
      reads this`history, this`calls
    {
      Lawful(history) && calls == AllCalls(history.calls)
    }

    /** Also, while entries are on the list a tick is to come. */
    ghost predicate Told()
      reads this`history, this`calls, this`iEntries, this`iTimer
    {
      Honest() && (iEntries != [] ==> iTimer.Armed?)
    }

    ghost function Timing(): Schedule
      reads this`iExpectedTimeout, this`plan
    {
      Schedule(iExpectedTimeout, plan)
    }

    /** The expected time is where the schedule has brought it. */
    ghost predicate OnTime()
      reads this`iExpectedTimeout, this`plan, this`iCyclePeriod
    {
      Follows(Timing(), iCyclePeriod) && 0 <= iCyclePeriod <= 1000000
    }

    /** Between ticks. */
    ghost predicate Valid()
      reads this, iEntries
    {
      Ready() && Told() && OnTime()
    }

    /** For a frequency that is not zero; tickPeriod is OsclTickCount's, in microseconds. */
    constructor (frequency: int, tickPeriod: int)
      requires 0 < frequency < WORD
      ensures Valid() && history == START && calls == [] && iTimer == Off && iTickCountPeriod == tickPeriod
      ensures frequency * iCyclePeriod <= 1000000 < frequency * (iCyclePeriod + 1)
      ensures iObserver == 0 && Timing() == REST && iExpectedTimeout == 0
    {
      iObserver := 0;
      iEntries, iEntriesWaitingToAdd, iEntriesWaitingToCancel := [], [], [];
      iInCallback := false;
      iCyclePeriod := CyclePeriod(frequency);
      iTickCountPeriod := tickPeriod;
      iExpectedTimeout := 0;
      iTimer := Off;
      history := START;
      calls := [];
      heap := {};
      plan := REST.plan;
      StartFollows(0, CyclePeriod(frequency));
    }

    /** OsclTickCount::TickCount() * iTickCountPeriod on 32 bits: the time in microseconds. */
    function Now(tickCount: int): Word
      reads this`iTickCountPeriod
    {
      U32(tickCount * iTickCountPeriod)
    }

    /** RunIfNotReady(delay): an alarm that is set already stays as it is. */
    method RunIfNotReady(delay: int)
      modifies this`iTimer
      ensures iTimer == if old(iTimer) == Off then Armed(delay) else old(iTimer)
    {
      if iTimer == Off { iTimer := Armed(delay); }
    }

    // ---------- Storage ----------

    method Allocate() returns (e: TimerEntry)
      modifies this`heap
      ensures fresh(e) && heap == old(heap) + {e}
    {
      e := new TimerEntry();
      heap := heap + {e};
    }

    /** deallocate(e): what the entry holds from now on is unspecified. */
    method Deallocate(e: TimerEntry)
      requires e in heap
      modifies this`heap, e
      ensures heap == old(heap) - {e}
    {
      heap := heap - {e};
    }

    /** Hands the i-th entry back and takes it off the list. */
    method Drop(i: nat)
      requires i < |iEntries| && Distinct(iEntries) && Members(iEntries) <= heap
      modifies this`iEntries, this`heap, iEntries[i]
      ensures iEntries == old(iEntries)[..i] + old(iEntries)[i + 1..] && heap == old(heap) - {old(iEntries[i])}
      ensures Distinct(iEntries) && Members(iEntries) == old(Members(iEntries)) - {old(iEntries[i])}
      ensures Views(iEntries) == old(Views(iEntries))[..i] + old(Views(iEntries))[i + 1..]
    {
      DropMembers(iEntries, i);
      Deallocate(iEntries[i]);
      iEntries := iEntries[..i] + iEntries[i + 1..];
    }

    // ---------- Request ----------

    method NewEntry(id: int, param: int, cycles: int, obs: nat, recurring: bool) returns (entry: TimerEntry)
      modifies this`heap
      ensures fresh(entry) && heap == old(heap) + {entry}
      ensures entry.iTimerID == id && entry.iParam == param && entry.iObserver == obs && entry.iRecurring == recurring
      ensures entry.iCounter == entry.iOrigCounter == cycles
    {
      entry := Allocate();
      entry.iTimerID := id;
      entry.iParam := param;
      entry.iCounter := cycles;
      entry.iObserver := obs;
      entry.iRecurring := recurring;
      entry.iOrigCounter := entry.iCounter;
    }

    /** A new entry joins the list. */
    method Enlist(entry: TimerEntry)
      requires ListOk() && entry !in iEntries && entry in heap && entry.iOrigCounter == entry.iCounter
      modifies this`iEntries, this`history, entry`serial
      ensures ListOk() && iEntries == old(iEntries) + [entry] && Members(iEntries) == old(Members(iEntries)) + {entry}
      ensures history ==
              Requested(old(history), entry.iTimerID, entry.iParam, entry.iCounter, entry.iObserver, entry.iRecurring)
      ensures old(Lawful(history)) ==> Lawful(history)
    {
      AppendMembers(iEntries, entry);
      if Lawful(history) {
        RequestLaw(history, entry.iTimerID, entry.iParam, entry.iCounter, entry.iObserver, entry.iRecurring);
      }
      entry.serial := |history.lives|;
      iEntries := iEntries + [entry];
      history := Requested(history, entry.iTimerID, entry.iParam, entry.iCounter, entry.iObserver, entry.iRecurring);
    }

    /** The timer outside a callback, and nothing inside one: what a call changes at once. */
    ghost function Outside(): set<OsclTimer>
      reads this`iInCallback
    {
      if iInCallback then {} else {this}
    }

    /** The timer inside a callback, and nothing outside one: what waits until the tick is over. */
    ghost function Inside(): set<OsclTimer>
      reads this`iInCallback
    {
      if iInCallback then {this} else {}
    }

    /** What a request adds: a last entry that holds what was asked for, its story, and an expected
        time if there was none. */
    ghost predicate Entered(before: seq<TimerEntry>, s: State, expected: Word, time: Word, cmd: Cmd)
      requires cmd.Request?
      reads this, iEntries
    {
      && |iEntries| == |before| + 1 && iEntries[..|before|] == before
      && var e := iEntries[|before|];
         && e.iTimerID == cmd.id && e.iParam == cmd.param && e.iObserver == cmd.obs && e.iRecurring == cmd.recurring
         && e.iCounter == e.iOrigCounter == cmd.cycles
         && history.now == s.now
         && history.lives ==
            s.lives + [Life(s.now, cmd.cycles, cmd.recurring, Open, cmd.id, cmd.param, cmd.obs)]
         && iExpectedTimeout == if expected == 0 then U32(time + iCyclePeriod) else expected
    }

    /** Request(timerID, param, cycles, obs, recurring); time is Now() at the call. */
    method Request(id: int, param: int, cycles: int, obs: nat, recurring: bool, time: Word)
      requires if iInCallback then Accounted() else ListOk()
      modifies this`heap, Inside()`iEntriesWaitingToAdd
      modifies Outside()`iEntries, Outside()`history, Outside()`iTimer, Outside()`iExpectedTimeout, Outside()`plan
      ensures old(iInCallback) ==>
        && Accounted() && fresh(heap - old(heap))
        && AddViews(iEntriesWaitingToAdd) ==
           old(AddViews(iEntriesWaitingToAdd)) + [Cmd.Request(id, param, cycles, obs, recurring)]
      ensures !old(iInCallback) ==>
        && ListOk() && history == Requested(old(history), id, param, cycles, obs, recurring)
        && iTimer == (if old(iTimer) == Off then Armed(iCyclePeriod) else old(iTimer))
        && Timing() == Joined(old(Timing()), time, iCyclePeriod)
        && Entered(old(iEntries), old(history), old(iExpectedTimeout), time,
                   Cmd.Request(id, param, cycles, obs, recurring))
        && old(Members(iEntries)) <= Members(iEntries) && fresh(Members(iEntries) - old(Members(iEntries)))
        && heap == old(heap) + (Members(iEntries) - old(Members(iEntries)))
        && (old(Accounted()) ==> Accounted())
        && (old(Honest()) ==> Told()) && (old(OnTime()) ==> OnTime())
    {
      var entry := NewEntry(id, param, cycles, obs, recurring);
      if iInCallback {
        PutOff(entry);
        return;
      }
      Enter(entry, time);
    }

    /** Inside a callback a new entry waits. */
    method PutOff(entry: TimerEntry)
      requires entry !in Members(iEntries) + Members(iEntriesWaitingToAdd) + Members(iEntriesWaitingToCancel)
      requires Distinct(iEntriesWaitingToAdd)
      modifies this`iEntriesWaitingToAdd
      ensures iEntriesWaitingToAdd == old(iEntriesWaitingToAdd) + [entry] && Distinct(iEntriesWaitingToAdd)
      ensures Members(iEntriesWaitingToAdd) == old(Members(iEntriesWaitingToAdd)) + {entry}
    {
      AppendMembers(iEntriesWaitingToAdd, entry);
      iEntriesWaitingToAdd := iEntriesWaitingToAdd + [entry];
    }

    /** Outside a callback a new entry joins the list at once, and a tick is to come. */
    method Enter(entry: TimerEntry, time: Word)
      requires !iInCallback && ListOk() && entry !in iEntries && entry in heap && entry.iOrigCounter == entry.iCounter
      modifies this`iEntries, this`history, this`iTimer, this`iExpectedTimeout, this`plan, entry`serial
      ensures ListOk() && iEntries == old(iEntries) + [entry] && Members(iEntries) == old(Members(iEntries)) + {entry}
      ensures history ==
              Requested(old(history), entry.iTimerID, entry.iParam, entry.iCounter, entry.iObserver, entry.iRecurring)
      ensures iTimer == if old(iTimer) == Off then Armed(iCyclePeriod) else old(iTimer)
      ensures Timing() == Joined(old(Timing()), time, iCyclePeriod)
      ensures old(Honest()) ==> Told()
      ensures old(OnTime()) ==> OnTime()
      ensures Entered(old(iEntries), old(history), old(iExpectedTimeout), time,
                      Cmd.Request(entry.iTimerID, entry.iParam, entry.iCounter, entry.iObserver, entry.iRecurring))
    {
      Enlist(entry);
      RunIfNotReady(iCyclePeriod);
      if iExpectedTimeout == 0 {
        iExpectedTimeout := U32(time + iCyclePeriod);
        plan := Plan(iExpectedTimeout, []);
        StartFollows(iExpectedTimeout, iCyclePeriod);
      }
    }

    // ---------- Cancel ----------

    /** The scan of Cancel: the place of the first match, or the length of the list. */
    method Scan(id: int, param: int) returns (i: nat)
      requires ListOk()
      ensures i == FirstMatch(history.entries, id, param)
      ensures forall j {:trigger NamedAt(history.entries, id, param, j)} :: 0 <= j < i ==>
                !NamedAt(history.entries, id, param, j)
      ensures i < |iEntries| ==> NamedAt(history.entries, id, param, i)
    {
      ghost var es := history.entries;
      i := 0;
      while i < |iEntries| && !(iEntries[i].iTimerID == id && (iEntries[i].iParam == param || param == ANY))
        invariant i <= |iEntries| && FirstMatch(es, id, param) >= i
        invariant forall j {:trigger NamedAt(es, id, param, j)} :: 0 <= j < i ==> !NamedAt(es, id, param, j)
        modifies {}
      {
        assert es[i] == iEntries[i].View();
        i := i + 1;
      }
      if i < |iEntries| { assert es[i] == iEntries[i].View(); }
    }

    /** The first match goes. */
    method CancelNow(id: int, param: int) returns (ghost at: nat)
      requires ListOk()
      modifies this`heap, this`iEntries, this`history, iEntries
      ensures ListOk() && history == Cancelled(old(history), id, param)
      ensures Members(iEntries) <= old(Members(iEntries))
      ensures heap == old(heap) - (old(Members(iEntries)) - Members(iEntries))
      ensures old(Lawful(history)) ==> Lawful(history)
      ensures TakenOff(old(iEntries), old(Views(iEntries)), id, param, at)
    {
      if Lawful(history) { CancelLaw(history, id, param); }
      var i := Scan(id, param);
      at := i;
      if i < |iEntries| {
        DroppedKnowsSerials(history, i);
        Drop(i);
        history := Dropped(history, i);
      }
    }

    /** What a cancel takes off the list before: the entry at place at, which is the first with the
        id and the parameter, or with any parameter for -1, and whose request ends now; nothing if
        at is the length of the list. */
    ghost predicate TakenOff(before: seq<TimerEntry>, views: seq<Entry>, id: int, param: int, at: nat)
      reads this
    {
      && at <= |before| == |views|
      && (forall j {:trigger NamedAt(views, id, param, j)} :: 0 <= j < at ==> !NamedAt(views, id, param, j))
      && if at == |before| then iEntries == before
         else NamedAt(views, id, param, at) && iEntries == before[..at] + before[at + 1..]
              && views[at].serial < |history.lives| && history.lives[views[at].serial].ended == Ended(history.now)
    }

    /** Cancel(timerID, param). */
    method Cancel(id: int, param: int) returns (ghost at: nat)
      requires if iInCallback then Accounted() else ListOk()
      modifies this`heap, Inside()`iEntriesWaitingToCancel
      modifies Outside()`iEntries, Outside()`history, if iInCallback then {} else Members(iEntries)
      ensures old(iInCallback) ==>
        && Accounted() && fresh(heap - old(heap))
        && CancelViews(iEntriesWaitingToCancel) == old(CancelViews(iEntriesWaitingToCancel)) + [Cmd.Cancel(id, param)]
      ensures !old(iInCallback) ==>
        && ListOk() && history == Cancelled(old(history), id, param)
        && Members(iEntries) <= old(Members(iEntries))
        && heap == old(heap) - (old(Members(iEntries)) - Members(iEntries))
        && (old(Accounted()) ==> Accounted()) && (old(Valid()) ==> Valid())
        && TakenOff(old(iEntries), old(Views(iEntries)), id, param, at)
    {
      at := 0;
      if iInCallback {
        var entry := Allocate();
        entry.iTimerID := id;
        entry.iParam := param;
        AppendMembers(iEntriesWaitingToCancel, entry);
        iEntriesWaitingToCancel := iEntriesWaitingToCancel + [entry];
        return;
      }
      at := CancelNow(id, param);
    }

    // ---------- A tick ----------

    /** A callback asks for something, and it waits. */
    method AskInCallback(cmd: Cmd, time: Word)
      requires iInCallback && Accounted()
      modifies this`heap, this`iEntriesWaitingToAdd, this`iEntriesWaitingToCancel
      ensures Accounted() && fresh(heap - old(heap))
      ensures AddViews(iEntriesWaitingToAdd) == old(AddViews(iEntriesWaitingToAdd)) + if cmd.Request? then [cmd] else []
      ensures CancelViews(iEntriesWaitingToCancel) == old(CancelViews(iEntriesWaitingToCancel)) + if cmd.Cancel?
                                                                                                  then [cmd]
                                                                                                  else []
    {
      match cmd
      case Request(id, param, cycles, obs, recurring) => Request(id, param, cycles, obs, recurring, time);
      case Cancel(id, param) => ghost var at := Cancel(id, param);
    }

    /** obs->TimeoutOccurred(timerID, timeoutInfo), which asks for cmds. */
    method TimeoutOccurred(obs: nat, timerID: int, timeoutInfo: int, ghost serial: nat, cmds: seq<Cmd>, time: Word)
      requires iInCallback && Accounted()
      modifies this`heap, this`iEntriesWaitingToAdd, this`iEntriesWaitingToCancel, this`calls
      ensures Accounted() && fresh(heap - old(heap))
      ensures calls == old(calls) + [Call(serial, obs, timerID, timeoutInfo)]
      ensures AddViews(iEntriesWaitingToAdd) == old(AddViews(iEntriesWaitingToAdd)) + Requests(cmds)
      ensures CancelViews(iEntriesWaitingToCancel) == old(CancelViews(iEntriesWaitingToCancel)) + Cancels(cmds)
    {
      calls := calls + [Call(serial, obs, timerID, timeoutInfo)];
      ghost var adds, cancels := AddViews(iEntriesWaitingToAdd), CancelViews(iEntriesWaitingToCancel);
      assert cmds[..0] == [] && cmds[..|cmds|] == cmds;
      for k := 0 to |cmds|
        invariant Accounted() && fresh(heap - old(heap))
        invariant calls == old(calls) + [Call(serial, obs, timerID, timeoutInfo)]
        invariant AddViews(iEntriesWaitingToAdd) == adds + Requests(cmds[..k])
        invariant CancelViews(iEntriesWaitingToCancel) == cancels + Cancels(cmds[..k])
      {
        assert cmds[..k + 1][..k] == cmds[..k];
        AskInCallback(cmds[k], time);
      }
    }

    /** What the observer of the entry asks for, if it is called. */
    ghost function AskedBy(e: Entry, cmds: seq<Cmd>): seq<Cmd>
      reads this`iObserver
    {
      if CallOf(e, iObserver) != [] then cmds else []
    }

    /** One turn of the expiry pass. */
    method TickEntry(entry: TimerEntry, cmds: seq<Cmd>, time: Word) returns (oneShot: bool)
      requires Accounted() && !iInCallback && entry in iEntries
      modifies this`heap, this`iEntriesWaitingToAdd, this`iEntriesWaitingToCancel, this`calls, this`iInCallback
      modifies entry`iCounter
      ensures Accounted() && !iInCallback && fresh(heap - old(heap))
      ensures entry.View() == Ticked(old(entry.View()))
      ensures oneShot <==> Expires(old(entry.View())) && !entry.iRecurring
      ensures calls == old(calls) + CallOf(old(entry.View()), iObserver)
      ensures AddViews(iEntriesWaitingToAdd) ==
              old(AddViews(iEntriesWaitingToAdd)) + Requests(AskedBy(old(entry.View()), cmds))
      ensures CancelViews(iEntriesWaitingToCancel) ==
              old(CancelViews(iEntriesWaitingToCancel)) + Cancels(AskedBy(old(entry.View()), cmds))
    {
      assert entry in Members(iEntries);
      oneShot := false;
      entry.iCounter := entry.iCounter - 1;
      if entry.iCounter <= 0 {
        if !entry.iRecurring { oneShot := true; }
        if entry.iRecurring { entry.iCounter := entry.iOrigCounter; }
        var obs := if entry.iObserver != 0 then entry.iObserver else iObserver;
        if obs != 0 {
          iInCallback := true;
          TimeoutOccurred(obs, entry.iTimerID, entry.iParam, entry.serial, cmds, time);
          iInCallback := false;
        }
      }
    }

    /** The first i entries have had their turn; before and called are what the list and the calls were. */
    ghost predicate Midway(before: seq<Entry>, called: seq<Call>, script: seq<seq<Cmd>>, i: nat)
      requires i <= |before| == |script|
      reads this, iEntries, iEntriesWaitingToAdd, iEntriesWaitingToCancel
    {
      && |iEntries| == |before|
      && (forall q :: 0 <= q < |before| ==> Views(iEntries)[q] == if q < i then Ticked(before[q]) else before[q])
      && calls == called + Notified(before, iObserver, i)
      && AddViews(iEntriesWaitingToAdd) == Requests(Asked(before, script, iObserver, i))
      && CancelViews(iEntriesWaitingToCancel) == Cancels(Asked(before, script, iObserver, i))
    }

    method ExpireTurn(i: nat, script: seq<seq<Cmd>>, time: Word, ghost before: seq<Entry>, ghost called: seq<Call>)
      returns (oneShot: bool)
      requires Accounted() && !iInCallback && i < |before| == |script| && Midway(before, called, script, i)
      modifies this`heap, this`iEntriesWaitingToAdd, this`iEntriesWaitingToCancel, this`calls, this`iInCallback
      modifies iEntries`iCounter
      ensures Accounted() && !iInCallback && fresh(heap - old(heap))
      ensures Midway(before, called, script, i + 1)
      ensures oneShot <==> Expires(before[i]) && !before[i].recurring
    {
      assert Views(iEntries)[i] == before[i];
      SplitsJoin(Asked(before, script, iObserver, i), AskedBy(before[i], script[i]));
      oneShot := TickEntry(iEntries[i], script[i], time);
      forall q | 0 <= q < |before| ensures Views(iEntries)[q] == if q < i + 1 then Ticked(before[q]) else before[q] {
        if q != i {
          assert Apart(iEntries, q, i) && Apart(iEntries, i, q) && iEntries[q] != iEntries[i];
          assert Views(iEntries)[q] == old(Views(iEntries)[q]);
        }
      }
    }

    /** The expiry pass: every counter goes down once, and what the observers ask for waits. */
    method ExpirePass(script: seq<seq<Cmd>>, time: Word, ghost before: seq<Entry>, ghost called: seq<Call>)
      returns (expiredFound: bool)
      requires before == Views(iEntries) && called == calls && |script| == |iEntries|
      requires Accounted() && !iInCallback && iEntriesWaitingToAdd == [] && iEntriesWaitingToCancel == []
      modifies this`heap, this`iEntriesWaitingToAdd, this`iEntriesWaitingToCancel, this`calls, this`iInCallback
      modifies iEntries`iCounter
      ensures Accounted() && !iInCallback && fresh(heap - old(heap))
      ensures Midway(before, called, script, |before|)
      ensures expiredFound <==> OneShotExpires(before)
    {
      expiredFound := false;
      for i := 0 to |iEntries|
        invariant Accounted() && !iInCallback && fresh(heap - old(heap))
        invariant Midway(before, called, script, i)
        invariant expiredFound <==> OneShotAmong(before, i)
      {
        OneShotStep(before, i);
        var oneShot := ExpireTurn(i, script, time, before, called);
        if oneShot { expiredFound := true; }
      }
    }

    /** One scan of the removal pass: the first entry whose counter is not positive goes. */
    method RemoveOne() returns (expiredFound: bool)
      requires Distinct(iEntries) && Members(iEntries) <= heap
      modifies this`heap, this`iEntries, Members(iEntries)
      ensures Distinct(iEntries) && Members(iEntries) <= old(Members(iEntries))
      ensures heap == old(heap) - (old(Members(iEntries)) - Members(iEntries))
      ensures Positive(Views(iEntries)) == Positive(old(Views(iEntries)))
      ensures expiredFound ==> |iEntries| < |old(iEntries)|
      ensures !expiredFound ==>
        && iEntries == old(iEntries) && Views(iEntries) == old(Views(iEntries)) == Positive(Views(iEntries))
    {
      var i := 0;
      while i < |iEntries| && iEntries[i].iCounter > 0
        invariant i <= |iEntries| && forall q :: 0 <= q < i ==> iEntries[q].iCounter > 0
        modifies {}
      {
        i := i + 1;
      }
      expiredFound := i < |iEntries|;
      if expiredFound {
        PositiveIgnores(Views(iEntries), i);
        assert iEntries[i] in Members(iEntries);
        Drop(i);
      } else {
        AllPositive(Views(iEntries));
      }
    }

    /** The removal pass: it ends, and leaves exactly the entries whose counter is positive, in order. */
    method RemoveExpired(found: bool)
      requires Distinct(iEntries) && Members(iEntries) <= heap
      modifies this`heap, this`iEntries, Members(iEntries)
      ensures Distinct(iEntries) && Members(iEntries) <= old(Members(iEntries))
      ensures heap == old(heap) - (old(Members(iEntries)) - Members(iEntries))
      ensures Views(iEntries) == if found then Positive(old(Views(iEntries))) else old(Views(iEntries))
    {
      var expiredFound := found;
      while expiredFound
        invariant Distinct(iEntries) && Members(iEntries) <= old(Members(iEntries)) && Members(iEntries) <= heap
        invariant heap == old(heap) - (old(Members(iEntries)) - Members(iEntries))
        invariant found ==> Positive(Views(iEntries)) == Positive(old(Views(iEntries)))
        invariant found && !expiredFound ==> Views(iEntries) == Positive(Views(iEntries))
        invariant !found ==> Views(iEntries) == old(Views(iEntries)) && !expiredFound
        decreases |iEntries| + if expiredFound then 1 else 0
      {
        expiredFound := RemoveOne();
      }
    }

    /** One deferred cancel. */
    method RedoCancel(entry: TimerEntry)
      requires !iInCallback && ListOk() && entry in heap && entry !in Members(iEntries)
      modifies this`heap, this`iEntries, this`history, Members(iEntries), entry
      ensures ListOk() && history == Cancelled(old(history), old(entry.iTimerID), old(entry.iParam))
      ensures Members(iEntries) <= old(Members(iEntries))
      ensures heap == old(heap) - (old(Members(iEntries)) - Members(iEntries)) - {entry}
    {
      ghost var at := Cancel(entry.iTimerID, entry.iParam);
      Deallocate(entry);
    }

    /** The first k deferred cancels have been redone, starting from s; adds wait to be added. */
    ghost predicate Undone(waiting: seq<TimerEntry>, adds: seq<TimerEntry>, cmds: seq<Cmd>, s: State, k: nat)
      requires SerialsKnown(s) && k <= |cmds| == |waiting| && OnlyCancels(cmds)
      reads this, iEntries, waiting
    {
      && ListOk() && heap == Members(iEntries) + Members(adds) + Members(waiting[k..])
      && Members(iEntries) !! Members(adds) !! Members(waiting)
      && history == CancelAll(s, cmds[..k]) && forall q :: k <= q < |waiting| ==> CancelViews(waiting)[q] == cmds[q]
    }

    method RedoNthCancel(waiting: seq<TimerEntry>, k: nat, ghost adds: seq<TimerEntry>, ghost cmds: seq<Cmd>,
                         ghost s: State)
      requires !iInCallback && Distinct(waiting)
      requires SerialsKnown(s) && k < |cmds| == |waiting| && OnlyCancels(cmds)
      requires Undone(waiting, adds, cmds, s, k)
      modifies this`heap, this`iEntries, this`history, Members(iEntries), Members(waiting)
      ensures Undone(waiting, adds, cmds, s, k + 1)
      ensures Members(iEntries) <= old(Members(iEntries))
    {
      assert CancelViews(waiting)[k] == cmds[k] && cmds[..k + 1][..k] == cmds[..k];
      TailMembers(waiting, k);
      assert waiting[k] in Members(waiting);
      RedoCancel(waiting[k]);
    }

    /** The deferred cancels, done again outside the callback; their entries go back to the allocator. */
    method ProcessCancels()
      requires !iInCallback && ListOk() && Accounted()
      modifies this`heap, this`iEntries, this`history, this`iEntriesWaitingToCancel, Members(iEntries)
      modifies Members(iEntriesWaitingToCancel)
      ensures ListOk() && Accounted() && iEntriesWaitingToCancel == [] && Members(iEntries) <= old(Members(iEntries))
      ensures history == CancelAll(old(history), old(CancelViews(iEntriesWaitingToCancel)))
      ensures AddViews(iEntriesWaitingToAdd) == old(AddViews(iEntriesWaitingToAdd))
    {
      var waiting := iEntriesWaitingToCancel;
      ghost var cmds := CancelViews(waiting);
      assert cmds[..0] == [] && cmds[..|cmds|] == cmds;
      for k := 0 to |waiting|
        invariant Undone(waiting, iEntriesWaitingToAdd, cmds, old(history), k)
        invariant Members(iEntries) <= old(Members(iEntries))
      {
        RedoNthCancel(waiting, k, iEntriesWaitingToAdd, cmds, old(history));
      }
      iEntriesWaitingToCancel := [];
    }

    /** One deferred request; the recurring flag is left out. */
    method RedoRequest(entry: TimerEntry, time: Word)
      requires !iInCallback && ListOk() && entry in heap && entry !in Members(iEntries)
      modifies this`heap, this`iEntries, this`history, this`iTimer, this`iExpectedTimeout, this`plan, entry
      ensures ListOk()
      ensures history ==
              old(Requested(history, entry.iTimerID, entry.iParam, entry.iCounter, entry.iObserver, false))
      ensures old(Members(iEntries)) <= Members(iEntries) && fresh(Members(iEntries) - old(Members(iEntries)))
      ensures heap == old(heap) - {entry} + (Members(iEntries) - old(Members(iEntries)))
      ensures iTimer == (if old(iTimer) == Off then Armed(iCyclePeriod) else old(iTimer))
      ensures Timing() == Joined(old(Timing()), time, iCyclePeriod)
    {
      Request(entry.iTimerID, entry.iParam, entry.iCounter, entry.iObserver, false, time);
      Deallocate(entry);
    }

    /** The first k deferred requests have been redone, starting from s. */
    ghost predicate Redone(waiting: seq<TimerEntry>, cmds: seq<Cmd>, s: State, k: nat)
      requires SerialsKnown(s) && k <= |cmds| == |waiting| && OnlyRequests(cmds)
      reads this, iEntries, waiting
    {
      && ListOk() && heap == Members(iEntries) + Members(waiting[k..]) && Members(iEntries) !! Members(waiting)
      && history == RequestAll(s, cmds[..k]) && forall q :: k <= q < |waiting| ==> AddViews(waiting)[q] == cmds[q]
    }

    /** The alarm, the expected time and the schedule after k requests, from what they were before. */
    ghost predicate Paced(timer: Alarm, before: Schedule, clock: nat -> Word, k: nat)
      reads this
    {
      && iTimer == (if timer == Off then AlarmAfter(k) else timer)
      && Timing() == AllJoined(before, clock, iCyclePeriod, k)
    }

    /** The same, along the schedules that lead there. */
    ghost predicate OnCourse(timer: Alarm, course: seq<Schedule>, k: nat)
      requires k < |course|
      reads this
    {
      iTimer == (if timer == Off then AlarmAfter(k) else timer) && Timing() == course[k]
    }

    method RedoNth(waiting: seq<TimerEntry>, k: nat, clock: nat -> Word, ghost cmds: seq<Cmd>, ghost s: State,
                   ghost timer: Alarm, ghost course: seq<Schedule>)
      requires !iInCallback && Distinct(waiting)
      requires SerialsKnown(s) && k < |cmds| == |waiting| && OnlyRequests(cmds)
      requires LeadsOn(course, clock, iCyclePeriod, k) && Redone(waiting, cmds, s, k) && OnCourse(timer, course, k)
      modifies this`heap, this`iEntries, this`history, this`iTimer, this`iExpectedTimeout, this`plan, Members(waiting)
      ensures Redone(waiting, cmds, s, k + 1) && OnCourse(timer, course, k + 1)
      ensures fresh(Members(iEntries) - old(Members(iEntries)))
    {
      assert AddViews(waiting)[k] == cmds[k] && cmds[..k + 1][..k] == cmds[..k];
      TailMembers(waiting, k);
      assert waiting[k] in Members(waiting);
      RedoRequest(waiting[k], clock(k));
    }

    /** The deferred requests, done again outside the callback. */
    method RedoRequests(waiting: seq<TimerEntry>, clock: nat -> Word, ghost cmds: seq<Cmd>, ghost s: State,
                        ghost course: seq<Schedule>)
      requires !iInCallback && Distinct(waiting) && SerialsKnown(s) && |cmds| == |waiting| && OnlyRequests(cmds)
      requires Redone(waiting, cmds, s, 0)
      requires |course| == |waiting| + 1 && course[0] == Timing() && Leads(course, clock, iCyclePeriod)
      modifies this`heap, this`iEntries, this`history, this`iTimer, this`iExpectedTimeout, this`plan, Members(waiting)
      ensures Redone(waiting, cmds, s, |waiting|) && OnCourse(old(iTimer), course, |waiting|)
      ensures fresh(Members(iEntries) - old(Members(iEntries)))
    {
      ghost var timer, listed := iTimer, Members(iEntries);
      for k := 0 to |waiting|
        invariant Redone(waiting, cmds, s, k) && OnCourse(timer, course, k)
        invariant fresh(Members(iEntries) - listed)
      {
        RedoNth(waiting, k, clock, cmds, s, timer, course);
      }
    }

    /** The deferred requests; their entries go back to the allocator. */
    method ProcessRequests(clock: nat -> Word, ghost cmds: seq<Cmd>)
      requires !iInCallback && ListOk() && Accounted() && iEntriesWaitingToCancel == []
      requires AddViews(iEntriesWaitingToAdd) == cmds && OnlyRequests(cmds)
      modifies this`heap, this`iEntries, this`history, this`iEntriesWaitingToAdd, this`iTimer, this`iExpectedTimeout
      modifies this`plan, Members(iEntriesWaitingToAdd)
      ensures Ready() && history == RequestAll(old(history), cmds)
      ensures Paced(old(iTimer), old(Timing()), clock, |cmds|)
      ensures fresh(Members(iEntries) - old(Members(iEntries))) && (cmds != [] ==> iEntries != [])
    {
      if cmds != [] { RequestAllLists(history, cmds); }
      assert cmds[..0] == [] && cmds[..|cmds|] == cmds;
      RedoRequests(iEntriesWaitingToAdd, clock, cmds, history, CourseOf(Timing(), clock, iCyclePeriod, |cmds|));
      iEntriesWaitingToAdd := [];
    }

    /** What the callbacks asked for: the cancels first, then the requests. */
    method ProcessWaiting(clock: nat -> Word, ghost asked: seq<Cmd>)
      requires !iInCallback && ListOk() && Accounted()
      requires CancelViews(iEntriesWaitingToCancel) == Cancels(asked)
      requires AddViews(iEntriesWaitingToAdd) == Requests(asked)
      modifies this`heap, this`iEntries, this`history, this`iEntriesWaitingToAdd, this`iEntriesWaitingToCancel
      modifies this`iTimer, this`iExpectedTimeout, this`plan, Members(iEntries), Members(iEntriesWaitingToAdd)
      modifies Members(iEntriesWaitingToCancel)
      ensures Ready()
      ensures history == Answered(old(history), asked)
      ensures Paced(old(iTimer), old(Timing()), clock, |Requests(asked)|)
      ensures fresh(Members(iEntries) - old(Members(iEntries))) && (Requests(asked) != [] ==> iEntries != [])
    {
      CommandsSplit(asked);
      ProcessCancels();
      ProcessRequests(clock, Requests(asked));
    }

    /** The adjustment for the jitter of a tick at the given time. */
    method Adjust(time: Word) returns (waitperiod: int)
      modifies this`iExpectedTimeout
      ensures iExpectedTimeout == NextExpected(time, old(iExpectedTimeout), iCyclePeriod)
      ensures waitperiod == Wait(time, old(iExpectedTimeout), iCyclePeriod)
    {
      var jitter := I32(time - iExpectedTimeout);
      waitperiod := I32(iCyclePeriod - jitter);
      if Magnitude(jitter) > iCyclePeriod {
        iExpectedTimeout := time;
      } else {
        iExpectedTimeout := U32(iExpectedTimeout + iCyclePeriod);
      }
      waitperiod := if waitperiod > 0 then waitperiod else 0;
    }

    /** After a tick at the given time, with schedule and alarm as they were before its end: while
        there are entries the schedule goes on and an alarm that is at rest is set. */
    ghost predicate Rearmed(before: Schedule, alarm: Alarm, time: Word)
      reads this
    {
      && Timing() == (if iEntries == [] then REST else Ahead(before, time, iCyclePeriod))
      && iTimer == if alarm == Off && iEntries != [] then Armed(Wait(time, before.next, iCyclePeriod)) else alarm
    }

    /** What the n requests of a tick's callbacks make of the alarm. */
    ghost function AlarmAfter(n: nat): Alarm
      reads this`iCyclePeriod
    {
      if n > 0 then Armed(iCyclePeriod) else Off
    }

    /** After a tick at the given time the alarm is set, for the right time. */
    ghost predicate Corrected(expected: Word, time: Word)
      reads this
    {
      iTimer.Armed? && SetRight(iTimer.delay, iExpectedTimeout, time, expected, iCyclePeriod)
    }

    /** The end of a tick: the alarm is set again while there are entries. */
    method Rearm(time: Word)
      requires Ready()
      modifies this`iTimer, this`iExpectedTimeout, this`plan
      ensures Ready()
      ensures Rearmed(old(Timing()), old(iTimer), time)
      ensures iEntries != [] && old(iTimer) == Off && 0 <= iCyclePeriod <= 1000000 ==>
                Corrected(old(iExpectedTimeout), time)
      ensures iEntries == [] ==> iExpectedTimeout == 0 && iTimer == old(iTimer)
    {
      if 0 <= iCyclePeriod <= 1000000 { TickSetsRight(time, iExpectedTimeout, iCyclePeriod); }
      if iEntries != [] {
        var waitperiod := Adjust(time);
        RunIfNotReady(waitperiod);
        plan := Plan(plan.start, plan.times + [time]);
      } else {
        iExpectedTimeout := 0;
        plan := REST.plan;
      }
    }

    /** The removal pass after the expiry pass. */
    method TakeOff(found: bool)
      requires Accounted() && SerialsKnown(history) && Views(iEntries) == TickAll(history.entries)
      requires found <==> OneShotExpires(history.entries)
      modifies this`heap, this`iEntries, this`history, Members(iEntries)
      ensures ListOk() && Accounted() && history == Fired(old(history), iObserver)
      ensures Members(iEntries) <= old(Members(iEntries))
      ensures AddViews(iEntriesWaitingToAdd) == old(AddViews(iEntriesWaitingToAdd))
      ensures CancelViews(iEntriesWaitingToCancel) == old(CancelViews(iEntriesWaitingToCancel))
    {
      FiredKnowsSerials(history, iObserver);
      RemoveExpired(found);
      assert Views(iEntries) == Surviving(history.entries);
      history := Fired(history, iObserver);
    }

    /** The part of a tick that runs the callbacks and takes the expired entries off. */
    method Fire(script: seq<seq<Cmd>>, time: Word)
      requires Ready() && |script| == |iEntries|
      modifies this`heap, this`iEntries, this`history, this`iEntriesWaitingToAdd, this`iEntriesWaitingToCancel
      modifies this`calls, this`iInCallback, Members(iEntries)
      ensures ListOk() && Accounted() && !iInCallback && history == Fired(old(history), iObserver)
      ensures calls == old(calls) + Notified(old(history).entries, iObserver, |script|)
      ensures Members(iEntries) <= old(Members(iEntries))
      ensures fresh(Members(iEntriesWaitingToAdd)) && fresh(Members(iEntriesWaitingToCancel))
      ensures var asked := Asked(old(history).entries, script, iObserver, |script|);
              && AddViews(iEntriesWaitingToAdd) == Requests(asked)
              && CancelViews(iEntriesWaitingToCancel) == Cancels(asked)
    {
      assert forall e :: e in iEntries ==> e in Members(iEntries);
      var expiredFound := ExpirePass(script, time, history.entries, calls);
      assert Views(iEntries) == TickAll(history.entries);
      TakeOff(expiredFound);
    }

    /** TimerBaseElapsed(): one tick.  script says what each entry's observer would ask for, clock
        what Now() is at each deferred request, time what it is at the end. */
    method TimerBaseElapsed(script: seq<seq<Cmd>>, clock: nat -> Word, time: Word)
      requires Ready() && |script| == |iEntries| && iTimer == Off
      modifies this`heap, this`iEntries, this`history, this`iEntriesWaitingToAdd, this`iEntriesWaitingToCancel
      modifies this`calls, this`iTimer, this`iExpectedTimeout, this`plan, this`iInCallback, Members(iEntries)
      ensures Ready() && history == Elapsed(old(history), script, iObserver)
      ensures calls == old(calls) + Notified(old(history).entries, iObserver, |script|)
      ensures var n := |Requests(Asked(old(history).entries, script, iObserver, |script|))|;
              var joined := AllJoined(old(Timing()), clock, iCyclePeriod, n);
              Rearmed(joined, AlarmAfter(n), time)
      ensures fresh(Members(iEntries) - old(Members(iEntries))) && (iTimer.Armed? <==> iEntries != [])
      ensures Requests(Asked(old(history).entries, script, iObserver, |script|)) != [] ==> iTimer == Armed(iCyclePeriod)
    {
      ghost var asked := FireAndProcess(script, clock, time);
      Rearm(time);
    }

    /** A tick but for its end. */
    method FireAndProcess(script: seq<seq<Cmd>>, clock: nat -> Word, time: Word) returns (ghost asked: seq<Cmd>)
      requires Ready() && |script| == |iEntries| && iTimer == Off
      modifies this`heap, this`iEntries, this`history, this`iEntriesWaitingToAdd, this`iEntriesWaitingToCancel
      modifies this`calls, this`iTimer, this`iExpectedTimeout, this`plan, this`iInCallback, Members(iEntries)
      ensures Ready() && history == Elapsed(old(history), script, iObserver)
      ensures calls == old(calls) + Notified(old(history).entries, iObserver, |script|)
      ensures asked == Asked(old(history).entries, script, iObserver, |script|)
      ensures Paced(Off, old(Timing()), clock, |Requests(asked)|) && (Requests(asked) != [] ==> iEntries != [])
      ensures fresh(Members(iEntries) - old(Members(iEntries)))
    {
      asked := Asked(history.entries, script, iObserver, |script|);
      Fire(script, time);
      ProcessWaiting(clock, asked);
    }

    /** TimerBaseElapsed between calls: the history stays lawful, and a tick is to come while there
        are entries; n requests were deferred. */
    method ElapseInOrder(script: seq<seq<Cmd>>, clock: nat -> Word, time: Word) returns (ghost n: nat)
      requires Ready() && Honest() && OnTime() && |script| == |iEntries| && iTimer == Off
      modifies this`heap, this`iEntries, this`history, this`iEntriesWaitingToAdd, this`iEntriesWaitingToCancel
      modifies this`calls, this`iTimer, this`iExpectedTimeout, this`plan, this`iInCallback, Members(iEntries)
      ensures Valid() && history == Elapsed(old(history), script, iObserver)
      ensures calls == old(calls) + Notified(old(history).entries, iObserver, |script|)
      ensures fresh(Members(iEntries) - old(Members(iEntries))) && (iTimer.Armed? <==> iEntries != [])
      ensures n == |Requests(Asked(old(history).entries, script, iObserver, |script|))|
      ensures Rearmed(AllJoined(old(Timing()), clock, iCyclePeriod, n), AlarmAfter(n), time)
      ensures OneTick(old(history), old(calls)) && (n > 0 ==> iTimer == Armed(iCyclePeriod))
    {
      ElapsedCounts(history, script, iObserver);
      NotifiedLast(history, script, iObserver);
      TickLaw(history, script, iObserver);
      ghost var before := Timing();
      n := |Requests(Asked(history.entries, script, iObserver, |script|))|;
      TimerBaseElapsed(script, clock, time);
      RearmedOnTime(before, clock, n, time);
    }

    lemma RearmedOnTime(before: Schedule, clock: nat -> Word, n: nat, time: Word)
      requires Follows(before, iCyclePeriod) && 0 <= iCyclePeriod <= 1000000
      requires Rearmed(AllJoined(before, clock, iCyclePeriod, n), AlarmAfter(n), time)
      ensures OnTime()
    {
      TickFollows(before, clock, iCyclePeriod, n, time);
    }

    /** One more tick, with the present global observer, and the calls that were made on it. */
    ghost predicate OneTick(before: State, called: seq<Call>)
      reads this
    {
      && history.now == before.now + 1 && history.globals == before.globals + [iObserver]
      && |history.calls| == |before.calls| + 1
      && calls == called + history.calls[|before.calls|]
    }

    lemma RearmedRight(before: Schedule, clock: nat -> Word, time: Word)
      requires 0 <= iCyclePeriod <= 1000000 && iEntries != []
      requires Rearmed(AllJoined(before, clock, iCyclePeriod, 0), AlarmAfter(0), time)
      ensures Corrected(before.next, time)
    {
      TickSetsRight(time, before.next, iCyclePeriod);
    }

    /** CallbackTimer::Run(): the alarm has gone off, and is at rest; unless it was cancelled, it
        makes a tick.  A timer with an entry on its list can always do this. */
    method Run(completed: bool, script: seq<seq<Cmd>>, clock: nat -> Word, time: Word)
      requires Valid() && iTimer.Armed? && |script| == |iEntries|
      modifies this`heap, this`iEntries, this`history, this`iEntriesWaitingToAdd, this`iEntriesWaitingToCancel
      modifies this`calls, this`iTimer, this`iExpectedTimeout, this`plan, this`iInCallback, Members(iEntries)
      ensures if completed then Valid() && history == Elapsed(old(history), script, iObserver)
              else Ready() && Honest() && OnTime() && iTimer == Off
                   && history == old(history) && iEntries == old(iEntries)
      ensures calls == old(calls) + if completed then Notified(old(history).entries, iObserver, |script|) else []
      ensures fresh(Members(iEntries) - old(Members(iEntries)))
      ensures completed ==> (iTimer.Armed? <==> iEntries != [])
      ensures completed ==>
                var n := |Requests(Asked(old(history).entries, script, iObserver, |script|))|;
                var joined := AllJoined(old(Timing()), clock, iCyclePeriod, n);
                Rearmed(joined, AlarmAfter(n), time) && (n > 0 ==> iTimer == Armed(iCyclePeriod))
      ensures completed ==> OneTick(old(history), old(calls)) && (iEntries == [] ==> iExpectedTimeout == 0)
    {
      iTimer := Off;
      if completed {
        ghost var n := ElapseInOrder(script, clock, time);
      }
    }

    /** Run, where no observer requests anything: while entries are left, the alarm is set for the
        right time. */
    method RunQuietly(script: seq<seq<Cmd>>, clock: nat -> Word, time: Word)
      requires Valid() && iTimer.Armed? && |script| == |iEntries| && Quiet(script)
      modifies this`heap, this`iEntries, this`history, this`iEntriesWaitingToAdd, this`iEntriesWaitingToCancel
      modifies this`calls, this`iTimer, this`iExpectedTimeout, this`plan, this`iInCallback, Members(iEntries)
      ensures Valid() && fresh(Members(iEntries) - old(Members(iEntries)))
      ensures iEntries != [] ==> Corrected(old(iExpectedTimeout), time)
    {
      ghost var before := Timing();
      NothingRequested(history.entries, script, iObserver, |script|);
      Run(true, script, clock, time);
      if iEntries != [] { RearmedRight(before, clock, time); }
    }

    /** The law of expiry for the timer itself, whatever was done with it: on each tick so far the
        observers were called exactly for the requests due on it, each once, with what was asked
        for. */
    lemma ExpiresOnTime(t: nat)
      requires Valid() && 1 <= t <= history.now
      ensures calls == AllCalls(history.calls) && |history.calls| == |history.globals| == history.now
      ensures AllAnswered(history, t, history.globals[t - 1], history.calls[t - 1])
      ensures AllCallsAsked(history, t, history.globals[t - 1], history.calls[t - 1])
      ensures InOrder(history.calls[t - 1])
    {
      CallLaw(history, t);
    }

    /** No drift: if no tick of the present schedule was more than a period off, the next one is
        expected a period after the last, counted from where the schedule started, however many
        calls of Run there were. */
    lemma KeepsTime()
      requires Valid() && AllSteady(plan.times, plan.start, iCyclePeriod)
      ensures iExpectedTimeout == U32(plan.start + |plan.times| * iCyclePeriod)
    {
      FollowsIs(Timing(), iCyclePeriod);
      NoDrift(plan.times, plan.start, iCyclePeriod, |plan.times|);
    }

    /** Clear(), in whatever state the list is. */
    method Clear()
      requires Accounted()
      modifies this`heap, this`iEntries, this`history, iEntries
      ensures Accounted() && iEntries == [] && heap == old(heap) - old(Members(iEntries))
      ensures old(ListOk()) ==> ListOk() && history == Cleared(old(history))
      ensures old(Valid()) ==> Valid()
    {
      ghost var known, lawful := ListOk(), Lawful(history);
      assert heap - Members(iEntries) == Members(iEntriesWaitingToAdd) + Members(iEntriesWaitingToCancel);
      DeallocateAll();
      iEntries := [];
      if known {
        ClearedCalls(history);
        if lawful { ClearLaw(history); }
        history := Cleared(history);
      }
    }

    /** Hands every entry of the list back, each once. */
    method DeallocateAll()
      requires Distinct(iEntries) && Members(iEntries) <= heap
      modifies this`heap, iEntries
      ensures heap == old(heap) - Members(iEntries)
    {
      var k := 0;
      while k < |iEntries|
        invariant k <= |iEntries| && Members(iEntries[k..]) <= heap
        invariant heap == old(heap) - (Members(iEntries) - Members(iEntries[k..]))
      {
        TailMembers(iEntries, k);
        Deallocate(iEntries[k]);
        k := k + 1;
      }
    }

    /** The destructor, between ticks: no entry is left allocated. */
    method Destroy()
      requires Valid()
      modifies this`heap, this`iTimer, iEntries
      ensures heap == {} && iTimer == Off
    {
      iTimer := Off;
      DeallocateAll();
    }

    /** SetObserver(obs). */
    method SetObserver(obs: nat)
      requires Valid()
      modifies this`iObserver
      ensures Valid() && iObserver == obs
    {
      iObserver := obs;
    }

    /** SetFrequency(frequency). */
    method SetFrequency(frequency: int, tickPeriod: int)
      requires Valid() && 0 < frequency < WORD
      modifies this`iCyclePeriod, this`iTickCountPeriod, this`plan
      ensures Valid() && iTickCountPeriod == tickPeriod && Timing() == StartAt(iExpectedTimeout)
      ensures frequency * iCyclePeriod <= 1000000 < frequency * (iCyclePeriod + 1)
    {
      iCyclePeriod := CyclePeriod(frequency);
      iTickCountPeriod := tickPeriod;
      plan := Plan(iExpectedTimeout, []);
      StartFollows(iExpectedTimeout, iCyclePeriod);
    }
  }

  /** Construction leaves with OsclErrArgument, or gives a timer. */
  datatype Outcome = ErrArgument | Created(timer: OsclTimer)

  /** OsclTimer(name, frequency, priority). */
  method NewTimer(frequency: int, tickPeriod: int) returns (r: Outcome)
    requires 0 <= frequency < WORD
    ensures r == ErrArgument <==> frequency == 0
    ensures r.Created? ==>
      && fresh(r.timer) && r.timer.Valid() && r.timer.history == START && r.timer.iTimer == Off
      && r.timer.iTickCountPeriod == tickPeriod
    ensures r.Created? ==> frequency * r.timer.iCyclePeriod <= 1000000 < frequency * (r.timer.iCyclePeriod + 1)
  {
    if frequency == 0 {
      r := ErrArgument;
    } else {
      var timer := new OsclTimer(frequency, tickPeriod);
      r := Created(timer);
    }
  }

  /** What a scheduler makes of the timer: while the alarm is set, it goes off and the timer runs.
      All n ticks happen, or the timer comes to rest with nothing left on its list. */
  method RunWhileArmed(timer: OsclTimer, n: nat, scripts: (nat, nat) -> seq<seq<Cmd>>, clocks: nat -> nat -> Word,
                       ticks: nat -> int)
    returns (k: nat)
    requires timer.Valid() && forall i, m :: |scripts(i, m)| == m
    modifies timer, timer.iEntries
    ensures timer.Valid() && timer.history.now == old(timer.history.now) + k
    ensures k == n || (k < n && timer.iTimer == Off && timer.iEntries == [])
    ensures fresh(Members(timer.iEntries) - old(Members(timer.iEntries)))
  {
    k := 0;
    while k < n && timer.iTimer != Off
      invariant k <= n && timer.Valid() && timer.history.now == old(timer.history.now) + k
      invariant fresh(Members(timer.iEntries) - old(Members(timer.iEntries)))
    {
      ElapsedCounts(timer.history, scripts(k, |timer.iEntries|), timer.iObserver);
      timer.Run(true, scripts(k, |timer.iEntries|), clocks(k), timer.Now(ticks(k)));
      k := k + 1;
    }
  }

  /** A timer with a global observer and the two timers of TwoAsked. */
  method AskTwo() returns (timer: OsclTimer)
    ensures fresh(timer) && fresh(Members(timer.iEntries)) && timer.Valid() && timer.history == TwoAsked()
    ensures timer.calls == [] && timer.iTimer.Armed? && timer.iObserver == 2
  {
    timer := new OsclTimer(10, 1000);
    timer.SetObserver(2);
    AskOnce(timer, 7, 5, 1);
    AskOnce(timer, 8, 6, 0);
  }

  /** A one-shot of one cycle, asked for between ticks. */
  method AskOnce(timer: OsclTimer, id: int, param: int, obs: nat)
    requires timer.Valid()
    modifies timer
    ensures timer.Valid() && timer.iTimer.Armed? && fresh(Members(timer.iEntries) - old(Members(timer.iEntries)))
    ensures timer.history == Requested(old(timer.history), id, param, 1, obs, false)
    ensures timer.calls == old(timer.calls) && timer.iObserver == old(timer.iObserver)
  {
    timer.Request(id, param, 1, obs, false, 0);
  }

  /** A tick on which nothing is asked for, and the calls it makes. */
  method QuietTick(timer: OsclTimer, ghost s: State, clock: nat -> Word)
    requires timer.Valid() && timer.iTimer.Armed? && timer.history == s
    modifies timer, Members(timer.iEntries)
    ensures timer.calls == old(timer.calls) + Notified(s.entries, timer.iObserver, |s.entries|)
    ensures timer.iObserver == old(timer.iObserver)
  {
    timer.Run(true, seq(|timer.iEntries|, _ => []), clock, 0);
  }

  /** A timer's own observer is called, and the global one only for a timer that has none. */
  method OwnObserverFirst(clock: nat -> Word) returns (timer: OsclTimer)
    ensures timer.calls == [Call(0, 1, 7, 5), Call(1, 2, 8, 6)]
  {
    timer := AskTwo();
    OwnBeforeGlobal();
    QuietTick(timer, timer.history, clock);
  }

  /** A timer with the two timers of SameId. */
  method AskSameId() returns (timer: OsclTimer)
    ensures fresh(timer) && fresh(Members(timer.iEntries)) && timer.Valid() && timer.history == SameId()
    ensures timer.calls == [] && timer.iTimer.Armed? && timer.iObserver == 0
  {
    timer := new OsclTimer(10, 1000);
    AskOnce(timer, 7, 5, 1);
    AskOnce(timer, 7, 6, 1);
  }

  /** A cancel between ticks. */
  method CancelOnce(timer: OsclTimer, id: int, param: int)
    requires timer.Valid() && timer.iTimer.Armed?
    modifies timer, Members(timer.iEntries)
    ensures timer.Valid() && timer.iTimer.Armed? && Members(timer.iEntries) <= old(Members(timer.iEntries))
    ensures timer.history == Cancelled(old(timer.history), id, param)
    ensures timer.calls == old(timer.calls) && timer.iObserver == old(timer.iObserver)
  {
    ghost var at := timer.Cancel(id, param);
  }

  /** Two timers with the same id, of which the second is cancelled by its parameter: only the
      first is called. */
  method CancelledByParameter(clock: nat -> Word) returns (timer: OsclTimer)
    ensures timer.calls == [Call(0, 1, 7, 5)]
  {
    timer := AskSameId();
    CancelOnce(timer, 7, 6);
    CancelledIsNotCalled();
    QuietTick(timer, timer.history, clock);
  }
}
