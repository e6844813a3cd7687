/** What OsclTimer (oscl_timer.h) promises of cancels, clears and what callbacks ask for, told in
    terms of the entries' own fields. */
module TimerPromises {
  import opened TimerModel
  import opened TimerLaws

  // ---------- Cancel ----------

  /** The i-th entry has the id and the parameter, any parameter for -1. */
  predicate NamedAt(es: seq<Entry>, id: int, param: int, i: nat)
    requires i < |es|
  {
    es[i].id == id && (es[i].param == param || param == -1)
  }

  /** The i-th entry is the first that has the id and the parameter, any parameter for -1. */
  predicate FirstNamed(es: seq<Entry>, id: int, param: int, i: nat) {
    && i < |es| && es[i].id == id && (es[i].param == param || param == -1)
    && forall j :: 0 <= j < i ==> !(es[j].id == id && (es[j].param == param || param == -1))
  }

  predicate NoneNamed(es: seq<Entry>, id: int, param: int) {
    forall j :: 0 <= j < |es| ==> !(es[j].id == id && (es[j].param == param || param == -1))
  }

  /** es' is es without that entry, or all of es if there is none. */
  predicate TakesOffFirst(es: seq<Entry>, id: int, param: int, es': seq<Entry>) {
    || (es' == es && NoneNamed(es, id, param))
    || exists i {:trigger FirstNamed(es, id, param, i)} :: && 0 <= i < |es| && FirstNamed(es, id, param, i)
                                                           && es' == es[..i] + es[i + 1..]
  }

  /** The entry is still on the list, or its request was taken off after the present tick. */
  predicate StaysOrEnds(s: State, s': State, e: Entry) {
    e in s'.entries || (e.serial < |s'.lives| && s'.lives[e.serial].ended == Ended(s.now))
  }

  predicate EndedNow(s: State, s': State) {
    forall j {:trigger StaysOrEnds(s, s', s.entries[j])} :: 0 <= j < |s.entries| ==> StaysOrEnds(s, s', s.entries[j])
  }

  lemma CancelTakesOffFirst(s: State, id: int, param: int)
    requires SerialsKnown(s)
    ensures var s' := Cancelled(s, id, param);
            && TakesOffFirst(s.entries, id, param, s'.entries)
            && s'.now == s.now && |s'.lives| == |s.lives| && EndedNow(s, s')
  {
    var es, i, s' := s.entries, FirstMatch(s.entries, id, param), Cancelled(s, id, param);
    forall j | 0 <= j < i ensures !(es[j].id == id && (es[j].param == param || param == -1)) {
      assert !Matches(es[j], id, param);
    }
    if i < |es| {
      assert Matches(es[i], id, param) && FirstNamed(es, id, param, i);
    } else {
      assert NoneNamed(es, id, param);
    }
    forall j {:trigger StaysOrEnds(s, s', es[j])} | 0 <= j < |es| ensures StaysOrEnds(s, s', es[j]) {
      if j != i { assert s'.entries[if j < i then j else j - 1] == es[j]; }
    }
  }

  predicate TakesOffEach(ess: seq<seq<Entry>>, cmds: seq<Cmd>, k: nat)
    requires k < |cmds| && k + 1 < |ess|
  {
    cmds[k].Cancel? && TakesOffFirst(ess[k], cmds[k].id, cmds[k].param, ess[k + 1])
  }

  predicate TakesOffAll(ess: seq<seq<Entry>>, cmds: seq<Cmd>) {
    && |ess| == |cmds| + 1
    && forall k {:trigger TakesOffEach(ess, cmds, k)} :: 0 <= k < |cmds| ==> TakesOffEach(ess, cmds, k)
  }

  lemma OneMoreTakenOff(ess: seq<seq<Entry>>, cmds: seq<Cmd>, c: Cmd, es: seq<Entry>)
    requires TakesOffAll(ess, cmds) && c.Cancel? && TakesOffFirst(ess[|cmds|], c.id, c.param, es)
    ensures TakesOffAll(ess + [es], cmds + [c])
  {
    var ess', cmds' := ess + [es], cmds + [c];
    forall k {:trigger TakesOffEach(ess', cmds', k)} | 0 <= k < |cmds'| ensures TakesOffEach(ess', cmds', k) {
      assert k < |cmds| ==> TakesOffEach(ess, cmds, k);
    }
  }

  /** The deferred cancels of a tick, one after the other: each takes off the first entry it names
      from what the ones before it left. */
  lemma {:induction false} CancelAllTakesOff(s: State, cmds: seq<Cmd>) returns (ess: seq<seq<Entry>>)
    requires SerialsKnown(s) && OnlyCancels(cmds)
    ensures TakesOffAll(ess, cmds) && ess[0] == s.entries && ess[|cmds|] == CancelAll(s, cmds).entries
  {
    if cmds == [] {
      ess := [s.entries];
    } else {
      var n := |cmds| - 1;
      ess := CancelAllTakesOff(s, cmds[..n]);
      CancelTakesOffFirst(CancelAll(s, cmds[..n]), cmds[n].id, cmds[n].param);
      OneMoreTakenOff(ess, cmds[..n], cmds[n], CancelAll(s, cmds).entries);
      assert cmds[..n] + [cmds[n]] == cmds;
      ess := ess + [CancelAll(s, cmds).entries];
    }
  }

  lemma {:induction false} CancelAllEnds(s: State, cmds: seq<Cmd>)
    requires SerialsKnown(s) && OnlyCancels(cmds)
    ensures EndedNow(s, CancelAll(s, cmds))
    ensures CancelAll(s, cmds).now == s.now && |CancelAll(s, cmds).lives| == |s.lives|
  {
    if cmds == [] {
      forall j {:trigger StaysOrEnds(s, s, s.entries[j])} | 0 <= j < |s.entries|
        ensures StaysOrEnds(s, s, s.entries[j])
      {
      }
    } else {
      var n := |cmds| - 1;
      CancelAllEnds(s, cmds[..n]);
      EndedOn(s, CancelAll(s, cmds[..n]), cmds[n].id, cmds[n].param);
    }
  }

  lemma EndedOn(s: State, s1: State, id: int, param: int)
    requires SerialsKnown(s) && SerialsKnown(s1) && s1.now == s.now && |s1.lives| == |s.lives| && EndedNow(s, s1)
    ensures var s' := Cancelled(s1, id, param); s'.now == s.now && |s'.lives| == |s.lives| && EndedNow(s, s')
  {
    var s' := Cancelled(s1, id, param);
    CancelTakesOffFirst(s1, id, param);
    forall j {:trigger StaysOrEnds(s, s', s.entries[j])} | 0 <= j < |s.entries|
      ensures StaysOrEnds(s, s', s.entries[j])
    {
      assert StaysOrEnds(s, s1, s.entries[j]);
      if s.entries[j] in s1.entries {
        var k :| 0 <= k < |s1.entries| && s1.entries[k] == s.entries[j];
        assert StaysOrEnds(s1, s', s1.entries[k]);
      }
    }
  }

  /** Clear ends every request that is on the list. */
  lemma {:induction false} ClearEndsAll(s: State)
    requires SerialsKnown(s)
    ensures var s' := Cleared(s);
            && s'.entries == [] && s'.now == s.now && |s'.lives| == |s.lives|
            && forall j :: 0 <= j < |s.entries| ==> s'.lives[s.entries[j].serial].ended == Ended(s.now)
    ensures forall u :: 0 <= u < |s.lives| && s.lives[u].ended == Ended(s.now) ==>
              Cleared(s).lives[u].ended == Ended(s.now)
    decreases |s.entries|
  {
    if s.entries == [] {
    } else {
      var s1 := Dropped(s, 0);
      DroppedKnowsSerials(s, 0);
      ClearEndsAll(s1);
      forall j | 0 <= j < |s.entries| ensures Cleared(s1).lives[s.entries[j].serial].ended == Ended(s.now) {
        if j > 0 { assert s1.entries[j - 1] == s.entries[j]; }
      }
    }
  }

  // ---------- After the end ----------

  lemma {:induction false} RunIsLawful(states: seq<State>, events: seq<Event>, k: nat)
    requires IsRun(states, events) && k <= |events|
    ensures Lawful(states[k])
  {
    if k == 0 {
    } else {
      RunIsLawful(states, events, k - 1);
      NextLawful(states[k - 1], events[k - 1]);
    }
  }

  lemma {:induction false} EndStays(states: seq<State>, events: seq<Event>, k: nat, m: nat, u: nat)
    requires IsRun(states, events) && k <= m <= |events| && u < |states[k].lives| && states[k].lives[u].ended.Ended?
    ensures u < |states[m].lives| && states[m].lives[u].ended == states[k].lives[u].ended
  {
    if k == m {
    } else {
      EndStays(states, events, k, m - 1, u);
      RunIsLawful(states, events, m - 1);
      NextContinues(states[m - 1], events[m - 1]);
    }
  }

  /** A request that was taken off after tick n, by a cancel, a deferred cancel or a clear, expires
      on no later tick, whatever happens from there on, and nobody is called for it. */
  lemma TakenOffIsSilent(states: seq<State>, events: seq<Event>, k: nat, m: nat, u: nat, n: nat, t: nat)
    requires IsRun(states, events) && k <= m <= |events| && u < |states[k].lives|
    requires states[k].lives[u].ended == Ended(n) && n < t <= states[m].now
    ensures |states[m].fired| == |states[m].calls| == states[m].now
    ensures u !in states[m].fired[t - 1]
    ensures NoCallFor(states[m].calls[t - 1], u)
  {
    EndStays(states, events, k, m, u);
    RunIsLawful(states, events, m);
    var s := states[m];
    CallLaw(s, t);
    assert TickOk(s, t) && Answers(s, t, s.globals[t - 1], s.calls[t - 1], u);
  }

  // ---------- What callbacks ask for ----------

  /** The entry is at its last cycle and has an observer, its own or else the global one. */
  predicate Calls(e: Entry, global: nat) {
    e.counter <= 1 && (e.obs != 0 || global != 0)
  }

  /** The share of the i-th entry in what was asked for on a tick. */
  predicate AsksAt(asked: seq<Cmd>, at: seq<nat>, e: Entry, cmds: seq<Cmd>, global: nat, i: nat) {
    && i + 1 < |at| && at[i] <= at[i + 1] <= |asked|
    && asked[at[i]..at[i + 1]] == if Calls(e, global) then cmds else []
  }

  lemma AsksMore(init: seq<Cmd>, share: seq<Cmd>, at: seq<nat>, e: Entry, cmds: seq<Cmd>, global: nat, i: nat)
    requires i < |at| && at[|at| - 1] == |init|
    requires if i + 1 < |at| then AsksAt(init, at, e, cmds, global, i)
             else share == if Calls(e, global) then cmds else []
    ensures AsksAt(init + share, at + [|init + share|], e, cmds, global, i)
  {
  }

  /** What was asked for on a tick: what the observer of each entry that makes its call asks for,
      entry by entry, and nothing else. */
  lemma {:induction false} AskedInOrder(es: seq<Entry>, script: seq<seq<Cmd>>, global: nat, k: nat)
    returns (at: seq<nat>)
    requires k <= |es| == |script|
    ensures |at| == k + 1 && at[0] == 0 && at[k] == |Asked(es, script, global, k)|
    ensures forall i {:trigger AsksAt(Asked(es, script, global, k), at, es[i], script[i], global, i)} :: 0 <= i < k ==>
              AsksAt(Asked(es, script, global, k), at, es[i], script[i], global, i)
  {
    if k == 0 {
      at := [0];
    } else {
      var before := AskedInOrder(es, script, global, k - 1);
      var init, asked := Asked(es, script, global, k - 1), Asked(es, script, global, k);
      var share := if Calls(es[k - 1], global) then script[k - 1] else [];
      assert asked == init + share;
      at := before + [|asked|];
      forall i {:trigger AsksAt(asked, at, es[i], script[i], global, i)} | 0 <= i < k
        ensures AsksAt(asked, at, es[i], script[i], global, i)
      {
        assert i < k - 1 ==> AsksAt(init, before, es[i], script[i], global, i);
        AsksMore(init, share, before, es[i], script[i], global, i);
      }
    }
  }

  /** The requests among the commands: at names their places, in order, and leaves none out. */
  lemma {:induction false} RequestsInOrder(cmds: seq<Cmd>) returns (at: seq<nat>)
    ensures |at| == |Requests(cmds)| && PlacesOf(cmds, at, Requests(cmds))
    ensures forall j :: 0 <= j < |cmds| ==> (j in at <==> cmds[j].Request?)
  {
    if cmds == [] {
      at := [];
    } else {
      var n := |cmds| - 1;
      at := RequestsInOrder(cmds[..n]);
      MorePlaces(cmds, at, Requests(cmds[..n]), cmds[n].Request?);
      if cmds[n].Request? { at := at + [n]; }
    }
  }

  lemma {:induction false} CancelsInOrder(cmds: seq<Cmd>) returns (at: seq<nat>)
    ensures |at| == |Cancels(cmds)| && PlacesOf(cmds, at, Cancels(cmds))
    ensures forall j :: 0 <= j < |cmds| ==> (j in at <==> cmds[j].Cancel?)
  {
    if cmds == [] {
      at := [];
    } else {
      var n := |cmds| - 1;
      at := CancelsInOrder(cmds[..n]);
      MorePlaces(cmds, at, Cancels(cmds[..n]), cmds[n].Cancel?);
      if cmds[n].Cancel? { at := at + [n]; }
    }
  }

  /** some are the elements of cmds at the given places, which ascend. */
  predicate PlacesOf(cmds: seq<Cmd>, at: seq<nat>, some: seq<Cmd>) {
    && |at| == |some| && Ascending(at)
    && forall i :: 0 <= i < |at| ==> at[i] < |cmds| && cmds[at[i]] == some[i]
  }

  lemma MorePlaces(cmds: seq<Cmd>, at: seq<nat>, some: seq<Cmd>, one: bool)
    requires cmds != [] && PlacesOf(cmds[..|cmds| - 1], at, some)
    ensures if one then PlacesOf(cmds, at + [|cmds| - 1], some + [cmds[|cmds| - 1]]) else PlacesOf(cmds, at, some)
  {
    var at' := at + [|cmds| - 1];
    forall i, j {:trigger Ascends(at', i, j)} | 0 <= i < j < |at'| ensures Ascends(at', i, j) {
      assert j < |at| ==> Ascends(at, i, j);
    }
  }

  lemma {:induction false} NoneRequested(cmds: seq<Cmd>)
    requires OnlyCancels(cmds)
    ensures Requests(cmds) == []
  {
    if cmds == [] {
    } else {
      NoneRequested(cmds[..|cmds| - 1]);
    }
  }

  /** No observer would request anything. */
  predicate Quiet(script: seq<seq<Cmd>>) {
    forall i {:trigger OnlyCancels(script[i])} :: 0 <= i < |script| ==> OnlyCancels(script[i])
  }

  lemma {:induction false} NothingRequested(es: seq<Entry>, script: seq<seq<Cmd>>, global: nat, k: nat)
    requires k <= |es| == |script| && Quiet(script)
    ensures OnlyCancels(Asked(es, script, global, k)) && Requests(Asked(es, script, global, k)) == []
  {
    if k == 0 {
    } else {
      NothingRequested(es, script, global, k - 1);
      assert OnlyCancels(script[k - 1]);
      NoneRequested(Asked(es, script, global, k));
    }
  }

  /** The entry that a deferred request makes, told by its fields. */
  predicate MadeBy(e: Entry, c: Cmd) {
    && c.Request? && e.id == c.id && e.param == c.param && e.counter == c.cycles && e.orig == c.cycles
    && e.obs == c.obs && !e.recurring
  }

  predicate MadeAt(es: seq<Entry>, rs: seq<Cmd>, k: nat)
    requires k < |rs| <= |es|
  {
    MadeBy(es[|es| - |rs| + k], rs[k])
  }

  /** The last entries on the list are those that the requests make, in order. */
  predicate EndsMadeBy(es: seq<Entry>, rs: seq<Cmd>) {
    |rs| <= |es| && forall k {:trigger MadeAt(es, rs, k)} :: 0 <= k < |rs| ==> MadeAt(es, rs, k)
  }

  lemma RequestsHas(cmds: seq<Cmd>, c: Cmd) returns (p: nat)
    requires c in cmds && c.Request?
    ensures p < |Requests(cmds)| && Requests(cmds)[p] == c
  {
    var at := RequestsInOrder(cmds);
    var j :| 0 <= j < |cmds| && cmds[j] == c;
    p :| 0 <= p < |at| && at[p] == j;
  }

  lemma CancelsHas(cmds: seq<Cmd>, c: Cmd)
    requires c in cmds && c.Cancel?
    ensures c in Cancels(cmds)
  {
    var at := CancelsInOrder(cmds);
    var j :| 0 <= j < |cmds| && cmds[j] == c;
    var p :| 0 <= p < |at| && at[p] == j;
    assert Cancels(cmds)[p] == c;
  }

  lemma AskedHas(es: seq<Entry>, script: seq<seq<Cmd>>, global: nat, i: nat, c: Cmd)
    requires i < |es| == |script| && Calls(es[i], global) && c in script[i]
    ensures c in Asked(es, script, global, |es|)
  {
    var asked := Asked(es, script, global, |es|);
    var at := AskedInOrder(es, script, global, |es|);
    assert AsksAt(asked, at, es[i], script[i], global, i);
    assert c in asked[at[i]..at[i + 1]];
  }

  /** What the observer of an entry that makes its call requests is on the list after the tick, as
      a new one-shot. */
  lemma CallbackRequestJoins(s: State, script: seq<seq<Cmd>>, global: nat, i: nat, c: Cmd) returns (e: Entry)
    requires SerialsKnown(s) && i < |s.entries| == |script|
    requires Calls(s.entries[i], global) && c in script[i] && c.Request?
    ensures e in Elapsed(s, script, global).entries && MadeBy(e, c) && e.serial >= |s.lives|
  {
    var asked := Asked(s.entries, script, global, |s.entries|);
    AskedHas(s.entries, script, global, i, c);
    var p := RequestsHas(asked, c);
    CallbackRequestsStay(s, script, global);
    e := EndHas(Elapsed(s, script, global).entries, Requests(asked), |s.lives|, p);
  }

  lemma EndHas(es: seq<Entry>, rs: seq<Cmd>, serial: nat, p: nat) returns (e: Entry)
    requires EndsWith(es, rs, serial) && p < |rs|
    ensures e in es && MadeBy(e, rs[p]) && e.serial >= serial
  {
    assert EntryFor(es, rs, serial, p);
    e := es[|es| - |rs| + p];
  }

  lemma {:induction false} CancelAllShrinks(s: State, cmds: seq<Cmd>, e: Entry)
    requires SerialsKnown(s) && OnlyCancels(cmds) && e in CancelAll(s, cmds).entries
    ensures e in s.entries
  {
    if cmds == [] {
    } else {
      var n := |cmds| - 1;
      CancelTakesOffFirst(CancelAll(s, cmds[..n]), cmds[n].id, cmds[n].param);
      CancelAllShrinks(s, cmds[..n], e);
    }
  }

  /** On the list no other entry has the id and the parameter. */
  predicate OnlyOneNamed(es: seq<Entry>, id: int, param: int, e: Entry) {
    && e in es && e.id == id && (e.param == param || param == -1)
    && forall j :: 0 <= j < |es| && es[j].id == id && (es[j].param == param || param == -1) ==> es[j] == e
  }

  lemma OnlyOneGoes(s: State, s1: State, id: int, param: int, e: Entry)
    requires Inv(s1) && SerialsKnown(s1) && OnlyOneNamed(s.entries, id, param, e)
    requires forall d :: d in s1.entries ==> d in s.entries
    ensures e !in Cancelled(s1, id, param).entries
  {
    var es, i := s1.entries, FirstMatch(s1.entries, id, param);
    if e in es {
      var k :| 0 <= k < |es| && es[k] == e;
      assert Matches(es[k], id, param);
      assert es[i] in s.entries;
      forall j | 0 <= j < |es| && j != i ensures es[j] != e { assert es[i] == e; }
    }
  }

  lemma {:induction false} NamedGoes(s: State, cmds: seq<Cmd>, c: Cmd, e: Entry)
    requires Inv(s) && SerialsKnown(s) && OnlyCancels(cmds) && c in cmds && OnlyOneNamed(s.entries, c.id, c.param, e)
    ensures e !in CancelAll(s, cmds).entries
  {
    var n := |cmds| - 1;
    var s1 := CancelAll(s, cmds[..n]);
    if c in cmds[..n] {
      NamedGoes(s, cmds[..n], c, e);
      CancelTakesOffFirst(s1, cmds[n].id, cmds[n].param);
    } else {
      assert c == cmds[n];
      CancelAllKeepsInv(s, cmds[..n]);
      forall d | d in s1.entries ensures d in s.entries { CancelAllShrinks(s, cmds[..n], d); }
      OnlyOneGoes(s, s1, c.id, c.param, e);
    }
  }

  lemma {:induction false} RequestAllKeepsFront(s: State, cmds: seq<Cmd>)
    requires SerialsKnown(s) && OnlyRequests(cmds)
    ensures |RequestAll(s, cmds).entries| == |s.entries| + |cmds|
    ensures RequestAll(s, cmds).entries[..|s.entries|] == s.entries
  {
    if cmds == [] {
    } else {
      RequestAllKeepsFront(s, cmds[..|cmds| - 1]);
    }
  }

  /** The list after a tick: what survived the expiry, without the first entry that each deferred
      cancel names, one cancel after the other, and then the deferred requests. */
  lemma TickTakesOff(s: State, script: seq<seq<Cmd>>, global: nat) returns (ess: seq<seq<Entry>>)
    requires SerialsKnown(s) && |script| == |s.entries|
    ensures var asked := Asked(s.entries, script, global, |s.entries|);
            var cs, rs, es := Cancels(asked), Requests(asked), Elapsed(s, script, global).entries;
            && TakesOffAll(ess, cs) && ess[0] == Surviving(s.entries)
            && |es| == |ess[|cs|]| + |rs| && es[..|es| - |rs|] == ess[|cs|]
            && EndsMadeBy(es, rs)
  {
    var asked := Asked(s.entries, script, global, |s.entries|);
    FiredKnowsSerials(s, global);
    CommandsSplit(asked);
    ess := CancelAllTakesOff(Fired(s, global), Cancels(asked));
    RequestAllKeepsFront(CancelAll(Fired(s, global), Cancels(asked)), Requests(asked));
    CallbackRequestsStay(s, script, global);
    var es, rs := Elapsed(s, script, global).entries, Requests(asked);
    forall k {:trigger MadeAt(es, rs, k)} | 0 <= k < |rs| ensures MadeAt(es, rs, k) {
      assert EntryFor(es, rs, |s.lives|, k);
    }
  }

  /** What the observer of an entry that makes its call cancels is off the list after the tick, if
      it survived the expiry and nothing else has the name, and its request ended on that tick. */
  lemma CallbackCancelEnds(s: State, script: seq<seq<Cmd>>, global: nat, i: nat, id: int, param: int, e: Entry)
    requires Inv(s) && SerialsKnown(s) && i < |s.entries| == |script|
    requires Calls(s.entries[i], global) && Cmd.Cancel(id, param) in script[i]
    requires OnlyOneNamed(Surviving(s.entries), id, param, e) && e.serial < |s.lives|
    ensures var s' := Elapsed(s, script, global);
            && e.serial < |s'.lives| && s'.lives[e.serial].ended == Ended(s.now + 1)
            && forall d :: d in s'.entries ==> d != e
  {
    var asked := Asked(s.entries, script, global, |s.entries|);
    var c, fired := Cmd.Cancel(id, param), Fired(s, global);
    AskedHas(s.entries, script, global, i, c);
    CancelsHas(asked, c);
    FiredKnowsSerials(s, global);
    FiredKeepsInv(s, global);
    CommandsSplit(asked);
    var cs, rs := Cancels(asked), Requests(asked);
    NamedGoes(fired, cs, c, e);
    CancelAllEnds(fired, cs);
    var k :| 0 <= k < |fired.entries| && fired.entries[k] == e;
    assert StaysOrEnds(fired, CancelAll(fired, cs), fired.entries[k]);
    GoneAfterRequests(CancelAll(fired, cs), rs, e);
  }

  lemma GoneAfterRequests(s: State, rs: seq<Cmd>, e: Entry)
    requires SerialsKnown(s) && OnlyRequests(rs) && e !in s.entries && e.serial < |s.lives|
    ensures var s' := RequestAll(s, rs);
            e !in s'.entries && |s'.lives| >= |s.lives| && s'.lives[e.serial] == s.lives[e.serial]
  {
    RequestAllKeepsFront(s, rs);
    RequestAllAppends(s, rs);
    DeferredRequestsAreOneShot(s, rs);
    var s' := RequestAll(s, rs);
    assert s'.lives[..|s.lives|][e.serial] == s.lives[e.serial];
    forall k | 0 <= k < |s'.entries| ensures s'.entries[k] != e {
      if k < |s.entries| {
        assert s'.entries[k] == s.entries[k];
      } else {
        assert EntryFor(s'.entries, rs, |s.lives|, k - |s.entries|);
      }
    }
  }

  // ---------- Two runs ----------

  /** Two one-shots of one cycle, the first with an observer of its own. */
  function TwoAsked(): State {
    Requested(Requested(START, 7, 5, 1, 1, false), 8, 6, 1, 0, false)
  }

  /** With a global observer set as well, the first timer's own is called, and the global one for
      the second. */
  lemma OwnBeforeGlobal()
    ensures var s := TwoAsked();
            && |s.entries| == 2 && SerialsKnown(s)
            && Notified(s.entries, 2, 2) == [Call(0, 1, 7, 5), Call(1, 2, 8, 6)]
            && Elapsed(s, [[], []], 2).calls == [[Call(0, 1, 7, 5), Call(1, 2, 8, 6)]]
  {
    var s := TwoAsked();
    assert s.entries == [Entry(0, 7, 5, 1, 1, false, 1), Entry(1, 8, 6, 1, 0, false, 1)];
    assert Notified(s.entries, 2, 1) == [Call(0, 1, 7, 5)];
    ElapsedCounts(s, [[], []], 2);
    NotifiedLast(s, [[], []], 2);
  }

  /** Two one-shots with the same id and different parameters. */
  function SameId(): State {
    Requested(Requested(START, 7, 5, 1, 1, false), 7, 6, 1, 1, false)
  }

  lemma FirstOfTwo(a: Entry, b: Entry, id: int, param: int)
    ensures FirstMatch([a, b], id, param) == if Matches(a, id, param) then 0 else if Matches(b, id, param) then 1 else 2
  {
    assert [a, b][1..] == [b] && [b][1..] == [];
    assert FirstMatch([b], id, param) == if Matches(b, id, param) then 0 else 1;
  }

  /** A cancel for any parameter takes the first timer off, and it is not called; one that names the
      second by its parameter leaves the first. */
  lemma CancelledIsNotCalled()
    ensures var s := SameId();
            && SerialsKnown(s) && |Cancelled(s, 7, 6).entries| == 1
            && Notified(Cancelled(s, 7, -1).entries, 0, 1) == [Call(1, 1, 7, 6)]
            && Notified(Cancelled(s, 7, 6).entries, 0, 1) == [Call(0, 1, 7, 5)]
            && Cancelled(s, 7, 4).entries == s.entries
  {
    var s := SameId();
    var a, b := Entry(0, 7, 5, 1, 1, false, 1), Entry(1, 7, 6, 1, 1, false, 1);
    assert s.entries == [a, b];
    FirstOfTwo(a, b, 7, -1);
    FirstOfTwo(a, b, 7, 6);
    FirstOfTwo(a, b, 7, 4);
    assert Cancelled(s, 7, -1).entries == [b] && Cancelled(s, 7, 6).entries == [a];
  }
}
