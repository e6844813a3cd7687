/** What every state of an OsclTimer (oscl_timer.h) satisfies, and so what its observers see. */
module TimerLaws {
  import opened TimerModel

  // ---------- Calls ----------

  /** The calls for the requests in us: one for each that has an observer, with what it asked for. */
  function CallsDue(us: seq<nat>, lives: seq<Life>, global: nat): seq<Call> {
    if us == [] then []
    else CallsDue(us[..|us| - 1], lives, global) + CallDue(us[|us| - 1], lives, global)
  }

  function CallDue(u: nat, lives: seq<Life>, global: nat): seq<Call> {
    if u < |lives| && Observer(lives[u].obs, global) != 0
    then [Call(u, Observer(lives[u].obs, global), lives[u].id, lives[u].param)] else []
  }

  /** An entry carries what its request asked for. */
  predicate EntryAsked(lives: seq<Life>, e: Entry) {
    && e.serial < |lives|
    && e.id == lives[e.serial].id && e.param == lives[e.serial].param && e.obs == lives[e.serial].obs
  }

  predicate AllAsked(lives: seq<Life>, es: seq<Entry>) {
    forall i {:trigger EntryAsked(lives, es[i])} :: 0 <= i < |es| ==> EntryAsked(lives, es[i])
  }

  /** On each tick the calls were those for the requests that expired. */
  predicate CallsRight(s: State, i: nat)
    requires i < |s.fired| == |s.calls| == |s.globals|
  {
    && (forall k :: 0 <= k < |s.fired[i]| ==> s.fired[i][k] < |s.lives|)
    && s.calls[i] == CallsDue(s.fired[i], s.lives, s.globals[i])
  }

  predicate Faithful(s: State) {
    && AllAsked(s.lives, s.entries) && |s.fired| == |s.calls| == |s.globals|
    && forall i {:trigger CallsRight(s, i)} :: 0 <= i < |s.fired| ==> CallsRight(s, i)
  }

  /** The stories in ls are also in ls', but for their ends. */
  predicate SameAsked(ls: seq<Life>, ls': seq<Life>) {
    && |ls| <= |ls'|
    && forall u :: 0 <= u < |ls| ==> ls'[u].(ended := Open) == ls[u].(ended := Open)
  }

  lemma {:induction false} CallsDueKept(us: seq<nat>, ls: seq<Life>, ls': seq<Life>, global: nat)
    requires SameAsked(ls, ls') && forall k :: 0 <= k < |us| ==> us[k] < |ls|
    ensures CallsDue(us, ls', global) == CallsDue(us, ls, global)
  {
    if us == [] {
    } else {
      var u := us[|us| - 1];
      CallsDueKept(us[..|us| - 1], ls, ls', global);
      assert ls'[u].(ended := Open).obs == ls'[u].obs && ls[u].(ended := Open).obs == ls[u].obs;
    }
  }

  lemma CallsDueAppends(us: seq<nat>, u: nat, lives: seq<Life>, global: nat)
    ensures CallsDue(us + [u], lives, global) == CallsDue(us, lives, global) + CallDue(u, lives, global)
  {
    assert (us + [u])[..|us|] == us;
  }

  /** The call an entry makes is the one for its request. */
  lemma CallOfIsDue(us: seq<nat>, us': seq<nat>, e: Entry, lives: seq<Life>, global: nat)
    requires EntryAsked(lives, e) && us' == if Expires(e) then us + [e.serial] else us
    ensures CallsDue(us', lives, global) == CallsDue(us, lives, global) + CallOf(e, global)
  {
    if Expires(e) { CallsDueAppends(us, e.serial, lives, global); }
  }

  lemma {:induction false} NotifiedIsDue(es: seq<Entry>, lives: seq<Life>, global: nat, k: nat)
    requires k <= |es| && AllAsked(lives, es)
    ensures Notified(es, global, k) == CallsDue(Expiring(es, k), lives, global)
  {
    if k == 0 {
    } else {
      assert EntryAsked(lives, es[k - 1]);
      NotifiedIsDue(es, lives, global, k - 1);
      CallOfIsDue(Expiring(es, k - 1), Expiring(es, k), es[k - 1], lives, global);
    }
  }

  lemma ExpiringKnown(es: seq<Entry>, lives: seq<Life>)
    requires AllAsked(lives, es)
    ensures forall j :: 0 <= j < |Expiring(es, |es|)| ==> Expiring(es, |es|)[j] < |lives|
  {
    var us := Expiring(es, |es|);
    forall j | 0 <= j < |us| ensures us[j] < |lives| {
      ExpiringMembers(es, |es|, us[j]);
      var i :| 0 <= i < |es| && es[i].serial == us[j];
      assert EntryAsked(lives, es[i]);
    }
  }

  /** A later state with the same ticks, the same stories and entries that were asked for. */
  lemma FaithfulKept(s: State, s': State)
    requires Faithful(s) && SameAsked(s.lives, s'.lives) && AllAsked(s'.lives, s'.entries)
    requires s'.fired == s.fired && s'.calls == s.calls && s'.globals == s.globals
    ensures Faithful(s')
  {
    forall i {:trigger CallsRight(s', i)} | 0 <= i < |s'.fired| ensures CallsRight(s', i) {
      assert CallsRight(s, i);
      CallsDueKept(s.fired[i], s.lives, s'.lives, s.globals[i]);
    }
  }

  lemma RequestedFaithful(s: State, id: int, param: int, cycles: int, obs: nat, recurring: bool)
    requires Faithful(s)
    ensures Faithful(Requested(s, id, param, cycles, obs, recurring))
  {
    var s' := Requested(s, id, param, cycles, obs, recurring);
    forall i {:trigger EntryAsked(s'.lives, s'.entries[i])} | 0 <= i < |s'.entries|
      ensures EntryAsked(s'.lives, s'.entries[i])
    {
      assert i < |s.entries| ==> EntryAsked(s.lives, s.entries[i]);
    }
    FaithfulKept(s, s');
  }

  lemma DroppedFaithful(s: State, i: nat)
    requires Faithful(s) && SerialsKnown(s) && i < |s.entries|
    ensures Faithful(Dropped(s, i)) && SameAsked(s.lives, Dropped(s, i).lives)
  {
    var s' := Dropped(s, i);
    forall j {:trigger EntryAsked(s'.lives, s'.entries[j])} | 0 <= j < |s'.entries|
      ensures EntryAsked(s'.lives, s'.entries[j])
    {
      assert EntryAsked(s.lives, s.entries[if j < i then j else j + 1]);
    }
    FaithfulKept(s, s');
  }

  lemma CancelledFaithful(s: State, id: int, param: int)
    requires Faithful(s) && SerialsKnown(s)
    ensures Faithful(Cancelled(s, id, param)) && SerialsKnown(Cancelled(s, id, param))
  {
    var i := FirstMatch(s.entries, id, param);
    if i < |s.entries| {
      DroppedFaithful(s, i);
      DroppedKnowsSerials(s, i);
    }
  }

  lemma {:induction false} ClearedFaithful(s: State)
    requires Faithful(s) && SerialsKnown(s)
    ensures Faithful(Cleared(s))
    decreases |s.entries|
  {
    if s.entries == [] {
    } else {
      DroppedFaithful(s, 0);
      DroppedKnowsSerials(s, 0);
      ClearedFaithful(Dropped(s, 0));
    }
  }

  lemma {:induction false} CancelAllFaithful(s: State, cmds: seq<Cmd>)
    requires Faithful(s) && SerialsKnown(s) && OnlyCancels(cmds)
    ensures Faithful(CancelAll(s, cmds))
  {
    if cmds == [] {
    } else {
      var n := |cmds| - 1;
      CancelAllFaithful(s, cmds[..n]);
      CancelledFaithful(CancelAll(s, cmds[..n]), cmds[n].id, cmds[n].param);
    }
  }

  lemma {:induction false} RequestAllFaithful(s: State, cmds: seq<Cmd>)
    requires Faithful(s) && SerialsKnown(s) && OnlyRequests(cmds)
    ensures Faithful(RequestAll(s, cmds))
  {
    if cmds == [] {
    } else {
      var n := |cmds| - 1;
      RequestAllFaithful(s, cmds[..n]);
      RequestedFaithful(RequestAll(s, cmds[..n]), cmds[n].id, cmds[n].param, cmds[n].cycles, cmds[n].obs, false);
    }
  }

  lemma FiredFaithful(s: State, global: nat)
    requires Faithful(s)
    ensures Faithful(Fired(s, global))
  {
    var s' := Fired(s, global);
    forall i {:trigger EntryAsked(s'.lives, s'.entries[i])} | 0 <= i < |s'.entries|
      ensures EntryAsked(s'.lives, s'.entries[i])
    {
      PositiveMembers(TickAll(s.entries), s'.entries[i]);
      var j :| 0 <= j < |s.entries| && TickAll(s.entries)[j] == s'.entries[i];
      assert EntryAsked(s.lives, s.entries[j]);
    }
    NotifiedIsDue(s.entries, s.lives, global, |s.entries|);
    ExpiringKnown(s.entries, s.lives);
    forall i {:trigger CallsRight(s', i)} | 0 <= i < |s'.fired| ensures CallsRight(s', i) {
      assert i < |s.fired| ==> CallsRight(s, i);
    }
  }

  lemma NextFaithful(s: State, e: Event)
    requires Faithful(s) && SerialsKnown(s) && Fits(s, e)
    ensures Faithful(Next(s, e)) && SerialsKnown(Next(s, e))
  {
    match e {
      case Ask(Request(id, param, cycles, obs, recurring)) => RequestedFaithful(s, id, param, cycles, obs, recurring);
      case Ask(Cancel(id, param)) => CancelledFaithful(s, id, param);
      case ClearAll => ClearedFaithful(s);
      case Tick(script, global) => ElapsedFaithful(s, script, global);
    }
    var es := Next(s, e).entries;
    forall i | 0 <= i < |es| ensures es[i].serial < |Next(s, e).lives| { assert EntryAsked(Next(s, e).lives, es[i]); }
  }

  lemma ElapsedFaithful(s: State, script: seq<seq<Cmd>>, global: nat)
    requires Faithful(s) && SerialsKnown(s) && |script| == |s.entries|
    ensures Faithful(Elapsed(s, script, global))
  {
    var asked := Asked(s.entries, script, global, |s.entries|);
    FiredKnowsSerials(s, global);
    CommandsSplit(asked);
    FiredFaithful(s, global);
    CancelAllFaithful(Fired(s, global), Cancels(asked));
    RequestAllFaithful(CancelAll(Fired(s, global), Cancels(asked)), Requests(asked));
  }

  // ---------- The law ----------

  /** The calls are those for what expired, and what expired on each tick is what was due on it. */
  predicate Lawful(s: State) {
    SerialsKnown(s) && Faithful(s) && Inv(s)
  }

  /** Every event keeps the law. */
  lemma NextLawful(s: State, e: Event)
    requires Lawful(s) && Fits(s, e)
    ensures Lawful(Next(s, e))
  {
    NextFaithful(s, e);
    NextKeepsInv(s, e);
  }

  lemma RequestLaw(s: State, id: int, param: int, cycles: int, obs: nat, recurring: bool)
    requires Lawful(s)
    ensures Lawful(Requested(s, id, param, cycles, obs, recurring))
  {
    NextLawful(s, Ask(Request(id, param, cycles, obs, recurring)));
  }

  lemma CancelLaw(s: State, id: int, param: int)
    requires Lawful(s)
    ensures Lawful(Cancelled(s, id, param)) && Cancelled(s, id, param).calls == s.calls
  {
    NextLawful(s, Ask(Cancel(id, param)));
  }

  lemma ClearLaw(s: State)
    requires Lawful(s)
    ensures Lawful(Cleared(s)) && Cleared(s).calls == s.calls
  {
    NextLawful(s, ClearAll);
    ClearedCalls(s);
  }

  lemma {:induction false} CallsDueMembers(us: seq<nat>, lives: seq<Life>, global: nat, q: Call)
    requires forall k :: 0 <= k < |us| ==> us[k] < |lives|
    ensures q in CallsDue(us, lives, global)
       <==> q.serial in us && q.serial < |lives| && CallDue(q.serial, lives, global) == [q]
  {
    if us == [] {
    } else {
      CallsDueMembers(us[..|us| - 1], lives, global, q);
    }
  }

  /** The calls come in the order of the requests, one for each. */
  predicate InOrder(qs: seq<Call>) {
    forall i, j :: 0 <= i < j < |qs| ==> qs[i].serial < qs[j].serial
  }

  lemma {:induction false} CallsDueAscend(us: seq<nat>, lives: seq<Life>, global: nat)
    requires Ascending(us) && forall k :: 0 <= k < |us| ==> us[k] < |lives|
    ensures InOrder(CallsDue(us, lives, global))
  {
    if us == [] {
    } else {
      var init := us[..|us| - 1];
      assert Ascending(init) by {
        forall i, j {:trigger Ascends(init, i, j)} | 0 <= i < j < |init| ensures Ascends(init, i, j) {
          assert Ascends(us, i, j);
        }
      }
      CallsDueAscend(init, lives, global);
      var qs := CallsDue(init, lives, global);
      forall i | 0 <= i < |qs| ensures qs[i].serial < us[|us| - 1] {
        CallsDueMembers(init, lives, global, qs[i]);
        var k :| 0 <= k < |init| && init[k] == qs[i].serial;
        assert Ascends(us, k, |us| - 1);
      }
    }
  }

  /** The call is for a request that is due on tick t and has an observer, its own or else the
      global one, and goes to that one with the request's own id and parameter. */
  predicate CallAsked(s: State, t: int, global: nat, q: Call) {
    && q.serial < |s.lives|
    && var l := s.lives[q.serial];
       && Due(s.lives, l, t) && (l.obs != 0 || global != 0)
       && q == Call(q.serial, if l.obs != 0 then l.obs else global, l.id, l.param)
  }

  predicate AllCallsAsked(s: State, t: int, global: nat, qs: seq<Call>) {
    forall i :: 0 <= i < |qs| ==> CallAsked(s, t, global, qs[i])
  }

  predicate NoCallFor(qs: seq<Call>, u: nat) {
    forall i :: 0 <= i < |qs| ==> qs[i].serial != u
  }

  /** The request, if it is due on tick t, got its call: to its own observer, or to the global one
      if it has none; without either nobody is called for it. */
  predicate Answers(s: State, t: int, global: nat, qs: seq<Call>, u: nat)
    requires u < |s.lives|
  {
    var l := s.lives[u];
    && (Due(s.lives, l, t) && l.obs != 0 ==> Call(u, l.obs, l.id, l.param) in qs)
    && (Due(s.lives, l, t) && l.obs == 0 && global != 0 ==> Call(u, global, l.id, l.param) in qs)
    && (!Due(s.lives, l, t) || (l.obs == 0 && global == 0) ==> NoCallFor(qs, u))
  }

  predicate AllAnswered(s: State, t: int, global: nat, qs: seq<Call>) {
    forall u :: 0 <= u < |s.lives| ==> Answers(s, t, global, qs, u)
  }

  /** What observers see: on tick t an observer is called exactly for the requests that are due on
      it and have one, local or else global, with the request's own id and parameter, each once
      and in the order of the requests. */
  lemma CallLaw(s: State, t: nat)
    requires Lawful(s) && 1 <= t <= s.now
    ensures |s.calls| == |s.globals| == s.now
    ensures AllAnswered(s, t, s.globals[t - 1], s.calls[t - 1])
    ensures AllCallsAsked(s, t, s.globals[t - 1], s.calls[t - 1])
    ensures InOrder(s.calls[t - 1])
  {
    assert TickOk(s, t) && CallsRight(s, t - 1);
    var us, global := s.fired[t - 1], s.globals[t - 1];
    CallsDueAscend(us, s.lives, global);
    forall q ensures q in s.calls[t - 1] <==>
      q.serial in us && q.serial < |s.lives| && CallDue(q.serial, s.lives, global) == [q]
    {
      CallsDueMembers(us, s.lives, global, q);
    }
    var qs := s.calls[t - 1];
    forall i | 0 <= i < |qs| ensures CallAsked(s, t, global, qs[i]) { assert qs[i] in qs; }
  }

  /** All calls so far. */
  function AllCalls(css: seq<seq<Call>>): seq<Call> {
    if css == [] then [] else AllCalls(css[..|css| - 1]) + css[|css| - 1]
  }

  lemma TickKeepsCalls(s: State, script: seq<seq<Cmd>>, global: nat)
    requires SerialsKnown(s) && |script| == |s.entries|
    ensures AllCalls(Elapsed(s, script, global).calls) == AllCalls(s.calls) + Notified(s.entries, global, |s.entries|)
  {
    var asked := Asked(s.entries, script, global, |s.entries|);
    FiredKnowsSerials(s, global);
    CommandsSplit(asked);
    CancelAllKeepsRest(Fired(s, global), Cancels(asked));
    RequestAllKeepsRest(CancelAll(Fired(s, global), Cancels(asked)), Requests(asked));
    var css := Fired(s, global).calls;
    assert css[..|css| - 1] == s.calls;
  }

  /** A tick is one tick, on which the given global observer was in place. */
  lemma ElapsedCounts(s: State, script: seq<seq<Cmd>>, global: nat)
    requires SerialsKnown(s) && |script| == |s.entries|
    ensures var s' := Elapsed(s, script, global);
            && s'.now == s.now + 1 && s'.globals == s.globals + [global]
            && |s'.calls| == |s.calls| + 1 && s'.calls[..|s.calls|] == s.calls
  {
    var asked := Asked(s.entries, script, global, |s.entries|);
    FiredKnowsSerials(s, global);
    CommandsSplit(asked);
    CancelAllKeepsRest(Fired(s, global), Cancels(asked));
    RequestAllKeepsRest(CancelAll(Fired(s, global), Cancels(asked)), Requests(asked));
  }

  lemma NotifiedLast(s: State, script: seq<seq<Cmd>>, global: nat)
    requires SerialsKnown(s) && |script| == |s.entries|
    ensures |Elapsed(s, script, global).calls| == |s.calls| + 1
    ensures Elapsed(s, script, global).calls[|s.calls|] == Notified(s.entries, global, |script|)
  {
    var asked := Asked(s.entries, script, global, |s.entries|);
    FiredKnowsSerials(s, global);
    CommandsSplit(asked);
    CancelAllKeepsRest(Fired(s, global), Cancels(asked));
    RequestAllKeepsRest(CancelAll(Fired(s, global), Cancels(asked)), Requests(asked));
  }

  /** A tick, as the calls and the law see it. */
  lemma TickLaw(s: State, script: seq<seq<Cmd>>, global: nat)
    requires Lawful(s) && |script| == |s.entries|
    ensures Lawful(Elapsed(s, script, global))
    ensures AllCalls(Elapsed(s, script, global).calls) == AllCalls(s.calls) + Notified(s.entries, global, |s.entries|)
  {
    NextLawful(s, Tick(script, global));
    TickKeepsCalls(s, script, global);
  }

  lemma {:induction false} CancelAllKeepsRest(s: State, cmds: seq<Cmd>)
    requires SerialsKnown(s) && OnlyCancels(cmds)
    ensures CancelAll(s, cmds).calls == s.calls && CancelAll(s, cmds).globals == s.globals
    ensures CancelAll(s, cmds).now == s.now && CancelAll(s, cmds).fired == s.fired
  {
    if cmds == [] {
    } else {
      CancelAllKeepsRest(s, cmds[..|cmds| - 1]);
    }
  }

  lemma {:induction false} RequestAllKeepsRest(s: State, cmds: seq<Cmd>)
    requires SerialsKnown(s) && OnlyRequests(cmds)
    ensures RequestAll(s, cmds).calls == s.calls && RequestAll(s, cmds).globals == s.globals
    ensures RequestAll(s, cmds).now == s.now && RequestAll(s, cmds).fired == s.fired
  {
    if cmds == [] {
    } else {
      RequestAllKeepsRest(s, cmds[..|cmds| - 1]);
    }
  }

  lemma {:induction false} ClearedCalls(s: State)
    requires SerialsKnown(s)
    ensures Cleared(s).calls == s.calls && Cleared(s).entries == [] && SerialsKnown(Cleared(s))
    decreases |s.entries|
  {
    if s.entries == [] {
    } else {
      DroppedKnowsSerials(s, 0);
      ClearedCalls(Dropped(s, 0));
    }
  }

  // ---------- Requests and cancels of one callback ----------

  /** The entry that a deferred request becomes. */
  function DeferredEntry(serial: nat, c: Cmd): Entry
    requires c.Request?
  {
    Entry(serial, c.id, c.param, c.cycles, c.obs, false, c.cycles)
  }

  /** The entries of cmds are the last on the list, in order. */
  predicate EndsWith(es: seq<Entry>, cmds: seq<Cmd>, serial: nat) {
    && |cmds| <= |es|
    && forall i {:trigger EntryFor(es, cmds, serial, i)} :: 0 <= i < |cmds| ==> EntryFor(es, cmds, serial, i)
  }

  predicate EntryFor(es: seq<Entry>, cmds: seq<Cmd>, serial: nat, i: nat)
    requires i < |cmds| <= |es|
  {
    cmds[i].Request? && es[|es| - |cmds| + i] == DeferredEntry(serial + i, cmds[i])
  }

  lemma {:induction false} RequestAllAppends(s: State, cmds: seq<Cmd>)
    requires SerialsKnown(s) && OnlyRequests(cmds)
    ensures var r := RequestAll(s, cmds);
            && |r.entries| == |s.entries| + |cmds| && |r.lives| == |s.lives| + |cmds|
            && EndsWith(r.entries, cmds, |s.lives|)
  {
    if cmds == [] {
    } else {
      var init := cmds[..|cmds| - 1];
      RequestAllAppends(s, init);
      var es := RequestAll(s, cmds).entries;
      forall i {:trigger EntryFor(es, cmds, |s.lives|, i)} | 0 <= i < |cmds| ensures EntryFor(es, cmds, |s.lives|, i) {
        assert i < |init| ==> EntryFor(RequestAll(s, init).entries, init, |s.lives|, i);
      }
    }
  }

  lemma {:induction false} CancelAllAsked(s: State, cmds: seq<Cmd>)
    requires SerialsKnown(s) && OnlyCancels(cmds)
    ensures SameAsked(s.lives, CancelAll(s, cmds).lives) && |CancelAll(s, cmds).lives| == |s.lives|
  {
    if cmds == [] {
    } else {
      CancelAllAsked(s, cmds[..|cmds| - 1]);
    }
  }

  lemma RequestAllLists(s: State, cmds: seq<Cmd>)
    requires SerialsKnown(s) && OnlyRequests(cmds) && cmds != []
    ensures RequestAll(s, cmds).entries != []
  {
  }

  /** What callbacks request on a tick is on the list after it, in order and behind everything
      else, whatever they cancel before or afterwards. */
  lemma CallbackRequestsStay(s: State, script: seq<seq<Cmd>>, global: nat)
    requires SerialsKnown(s) && |script| == |s.entries|
    ensures var rs := Requests(Asked(s.entries, script, global, |s.entries|));
            EndsWith(Elapsed(s, script, global).entries, rs, |s.lives|)
  {
    var asked := Asked(s.entries, script, global, |s.entries|);
    FiredKnowsSerials(s, global);
    CommandsSplit(asked);
    CancelAllAsked(Fired(s, global), Cancels(asked));
    RequestAllAppends(CancelAll(Fired(s, global), Cancels(asked)), Requests(asked));
  }
}
