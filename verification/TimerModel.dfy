/** What an OsclTimer does to its list of entries (oscl_timer.h), and what that means for the
    ticks on which each requested timer expires. */
module TimerModel {

  /** Matches any parameter in Cancel. */
  const ANY: int := -1

  /** serial numbers the requests; obs is the local observer, 0 if there is none. */
  datatype Entry = Entry(serial: nat, id: int, param: int, counter: int, obs: nat, recurring: bool, orig: int)

  /** What a callback may ask of the timer. */
  datatype Cmd =
    | Request(id: int, param: int, cycles: int, obs: nat, recurring: bool)
    | Cancel(id: int, param: int)

  /** A request's story: what was asked for, the tick after which it joined the list, and the
      tick after which it was taken off by a cancel or a clear. */
  datatype Life = Life(joined: nat, cycles: int, recurring: bool, ended: End, id: int, param: int, obs: nat)

  /** One call of an observer, for the request with that serial. */
  datatype Call = Call(serial: nat, observer: nat, id: int, param: int)

  datatype End = Open | Ended(tick: nat)

  /** now counts ticks; fired[t - 1] lists the serials that expired on tick t, in order, calls[t - 1]
      the calls that were made on it, and globals[t - 1] the global observer at the time. */
  datatype State = State(now: nat, entries: seq<Entry>, lives: seq<Life>,
                         fired: seq<seq<nat>>, calls: seq<seq<Call>>, globals: seq<nat>)

  const START: State := State(0, [], [], [], [], [])

  // ---------- Request and Cancel outside a callback ----------

  function Requested(s: State, id: int, param: int, cycles: int, obs: nat, recurring: bool): State {
    s.(entries := s.entries + [Entry(|s.lives|, id, param, cycles, obs, recurring, cycles)],
       lives := s.lives + [Life(s.now, cycles, recurring, Open, id, param, obs)])
  }

  predicate Matches(e: Entry, id: int, param: int) {
    e.id == id && (e.param == param || param == ANY)
  }

  /** The first entry that a cancel names; the length of the list if there is none. */
  function FirstMatch(es: seq<Entry>, id: int, param: int): (i: nat)
    ensures i <= |es|
    ensures forall j :: 0 <= j < i ==> !Matches(es[j], id, param)
    ensures i < |es| ==> Matches(es[i], id, param)
  {
    if es == [] || Matches(es[0], id, param) then 0 else 1 + FirstMatch(es[1..], id, param)
  }

  predicate SerialsKnown(s: State) {
    forall i :: 0 <= i < |s.entries| ==> s.entries[i].serial < |s.lives|
  }

  /** Takes the i-th entry off the list. */
  function Dropped(s: State, i: nat): State
    requires i < |s.entries| && SerialsKnown(s)
  {
    var u := s.entries[i].serial;
    s.(entries := s.entries[..i] + s.entries[i + 1..], lives := s.lives[u := s.lives[u].(ended := Ended(s.now))])
  }

  lemma DroppedKnowsSerials(s: State, i: nat)
    requires i < |s.entries| && SerialsKnown(s)
    ensures SerialsKnown(Dropped(s, i))
  {
    var es := Dropped(s, i).entries;
    forall j | 0 <= j < |es| ensures es[j].serial < |s.lives| {
      assert es[j] == s.entries[if j < i then j else j + 1];
    }
  }

  /** At most one entry goes: the first that matches. */
  function Cancelled(s: State, id: int, param: int): State
    requires SerialsKnown(s)
  {
    var i := FirstMatch(s.entries, id, param);
    if i < |s.entries| then Dropped(s, i) else s
  }

  // ---------- One tick ----------

  predicate Expires(e: Entry) {
    e.counter - 1 <= 0
  }

  /** A recurring entry that expires starts over. */
  function Ticked(e: Entry): Entry {
    e.(counter := if Expires(e) && e.recurring then e.orig else e.counter - 1)
  }

  function TickAll(es: seq<Entry>): (r: seq<Entry>)
    ensures |r| == |es|
  {
    seq(|es|, i requires 0 <= i < |es| => Ticked(es[i]))
  }

  /** The serials of the first k entries that expire on this tick. */
  function Expiring(es: seq<Entry>, k: nat): seq<nat>
    requires k <= |es|
  {
    if k == 0 then [] else Expiring(es, k - 1) + if Expires(es[k - 1]) then [es[k - 1].serial] else []
  }

  /** A one-shot among the first k entries expires. */
  predicate OneShotAmong(es: seq<Entry>, k: nat)
    requires k <= |es|
  {
    exists i :: 0 <= i < k && Expires(es[i]) && !es[i].recurring
  }

  predicate OneShotExpires(es: seq<Entry>) {
    OneShotAmong(es, |es|)
  }

  /** The entries whose counter is still positive, in order. */
  function Positive(es: seq<Entry>): seq<Entry> {
    if es == [] then [] else Positive(es[..|es| - 1]) + if es[|es| - 1].counter > 0 then [es[|es| - 1]] else []
  }

  /** The list after the expiry pass and the removal pass, which runs only after a one-shot expired. */
  function Surviving(es: seq<Entry>): seq<Entry> {
    if OneShotExpires(es) then Positive(TickAll(es)) else TickAll(es)
  }

  /** What the first k entries' observers ask for on this tick: script[i] if entry i expires and
      an observer is there to be called. */
  function Asked(es: seq<Entry>, script: seq<seq<Cmd>>, global: nat, k: nat): seq<Cmd>
    requires k <= |es| == |script|
  {
    if k == 0 then []
    else
      var asked := if CallOf(es[k - 1], global) != [] then script[k - 1] else [];
      Asked(es, script, global, k - 1) + asked
  }

  function Cancels(cmds: seq<Cmd>): seq<Cmd> {
    if cmds == [] then [] else Cancels(cmds[..|cmds| - 1]) + if cmds[|cmds| - 1].Cancel? then [cmds[|cmds| - 1]] else []
  }

  function Requests(cmds: seq<Cmd>): seq<Cmd> {
    if cmds == [] then []
    else Requests(cmds[..|cmds| - 1]) + if cmds[|cmds| - 1].Request? then [cmds[|cmds| - 1]] else []
  }

  predicate OnlyCancels(cmds: seq<Cmd>) {
    forall i :: 0 <= i < |cmds| ==> cmds[i].Cancel?
  }

  predicate OnlyRequests(cmds: seq<Cmd>) {
    forall i :: 0 <= i < |cmds| ==> cmds[i].Request?
  }

  /** The deferred cancels, in order. */
  function CancelAll(s: State, cmds: seq<Cmd>): (r: State)
    requires SerialsKnown(s) && OnlyCancels(cmds)
    ensures SerialsKnown(r)
  {
    if cmds == [] then s
    else Cancelled(CancelAll(s, cmds[..|cmds| - 1]), cmds[|cmds| - 1].id, cmds[|cmds| - 1].param)
  }

  /** The deferred requests, in order; the call that redoes them leaves the recurring flag out. */
  function RequestAll(s: State, cmds: seq<Cmd>): (r: State)
    requires SerialsKnown(s) && OnlyRequests(cmds)
    ensures SerialsKnown(r)
  {
    if cmds == [] then s
    else
      var c := cmds[|cmds| - 1];
      Requested(RequestAll(s, cmds[..|cmds| - 1]), c.id, c.param, c.cycles, c.obs, false)
  }

  /** The local observer if there is one, else the global one; 0 if there is neither. */
  function Observer(obs: nat, global: nat): nat {
    if obs != 0 then obs else global
  }

  /** The call that an entry makes on this tick: one, if it expires and has an observer. */
  function CallOf(e: Entry, global: nat): seq<Call> {
    if Expires(e) && Observer(e.obs, global) != 0 then [Call(e.serial, Observer(e.obs, global), e.id, e.param)] else []
  }

  /** The calls that the first k entries make on this tick, in order. */
  function Notified(es: seq<Entry>, global: nat, k: nat): seq<Call>
    requires k <= |es|
  {
    if k == 0 then [] else Notified(es, global, k - 1) + CallOf(es[k - 1], global)
  }

  /** The tick itself, before what the callbacks asked for is done. */
  function Fired(s: State, global: nat): State {
    State(s.now + 1, Surviving(s.entries), s.lives, s.fired + [Expiring(s.entries, |s.entries|)],
          s.calls + [Notified(s.entries, global, |s.entries|)], s.globals + [global])
  }

  /** What the callbacks asked for: the deferred cancels are done before the deferred requests. */
  function Answered(s: State, asked: seq<Cmd>): State
    requires SerialsKnown(s)
  {
    CommandsSplit(asked);
    RequestAll(CancelAll(s, Cancels(asked)), Requests(asked))
  }

  /** A whole tick. */
  function Elapsed(s: State, script: seq<seq<Cmd>>, global: nat): State
    requires SerialsKnown(s) && |script| == |s.entries|
  {
    FiredKnowsSerials(s, global);
    Answered(Fired(s, global), Asked(s.entries, script, global, |s.entries|))
  }

  /** Clear(): every entry goes. */
  function Cleared(s: State): State
    requires SerialsKnown(s)
    decreases |s.entries|
  {
    if s.entries == [] then s else Cleared(Dropped(s, 0))
  }

  datatype Event =
    | Ask(cmd: Cmd)
    | ClearAll
    | Tick(script: seq<seq<Cmd>>, global: nat)

  /** A tick's script has a line for every entry. */
  predicate Fits(s: State, e: Event) {
    e.Tick? ==> |e.script| == |s.entries|
  }

  function Next(s: State, e: Event): State
    requires SerialsKnown(s) && Fits(s, e)
  {
    match e
    case Ask(Request(id, param, cycles, obs, recurring)) => Requested(s, id, param, cycles, obs, recurring)
    case Ask(Cancel(id, param)) => Cancelled(s, id, param)
    case ClearAll => Cleared(s)
    case Tick(script, global) => Elapsed(s, script, global)
  }

  // ---------- Lists ----------

  lemma {:induction false} PositiveMembers(es: seq<Entry>, e: Entry)
    ensures e in Positive(es) <==> e in es && e.counter > 0
  {
    if es == [] {
    } else {
      PositiveMembers(es[..|es| - 1], e);
    }
  }

  lemma FiredKnowsSerials(s: State, global: nat)
    requires SerialsKnown(s)
    ensures SerialsKnown(Fired(s, global))
  {
    var es := Fired(s, global).entries;
    forall i | 0 <= i < |es| ensures es[i].serial < |s.lives| {
      PositiveMembers(TickAll(s.entries), es[i]);
      var j :| 0 <= j < |s.entries| && TickAll(s.entries)[j] == es[i];
    }
  }

  lemma {:induction false} CommandsSplit(cmds: seq<Cmd>)
    ensures OnlyCancels(Cancels(cmds)) && OnlyRequests(Requests(cmds))
  {
    if cmds == [] {
    } else {
      CommandsSplit(cmds[..|cmds| - 1]);
    }
  }

  lemma {:induction false} SplitsJoin(a: seq<Cmd>, b: seq<Cmd>)
    ensures Cancels(a + b) == Cancels(a) + Cancels(b) && Requests(a + b) == Requests(a) + Requests(b)
  {
    if b == [] {
      assert a + b == a;
    } else {
      SplitsJoin(a, b[..|b| - 1]);
      assert (a + b)[..|a + b| - 1] == a + b[..|b| - 1];
    }
  }

  lemma OneShotStep(es: seq<Entry>, k: nat)
    requires k < |es|
    ensures OneShotAmong(es, k + 1) <==> OneShotAmong(es, k) || (Expires(es[k]) && !es[k].recurring)
  {
    if OneShotAmong(es, k + 1) {
      var i :| 0 <= i < k + 1 && Expires(es[i]) && !es[i].recurring;
      assert i == k || OneShotAmong(es, k);
    }
  }

  /** Taking off an entry whose counter is not positive does not change what the removal pass leaves. */
  lemma {:induction false} PositiveIgnores(es: seq<Entry>, i: nat)
    requires i < |es| && es[i].counter <= 0
    ensures Positive(es[..i] + es[i + 1..]) == Positive(es)
  {
    var r := es[..i] + es[i + 1..];
    if i == |es| - 1 {
      assert r == es[..|es| - 1];
    } else {
      var init := es[..|es| - 1];
      PositiveIgnores(init, i);
      assert r[..|r| - 1] == init[..i] + init[i + 1..];
    }
  }

  predicate Increasing(es: seq<Entry>) {
    forall i, j :: 0 <= i < j < |es| ==> es[i].serial < es[j].serial
  }

  lemma {:induction false} PositiveIncreasing(es: seq<Entry>)
    requires Increasing(es)
    ensures Increasing(Positive(es))
  {
    if es == [] {
    } else {
      var init := es[..|es| - 1];
      PositiveIncreasing(init);
      forall i | 0 <= i < |Positive(init)| ensures Positive(init)[i].serial < es[|es| - 1].serial {
        PositiveMembers(init, Positive(init)[i]);
      }
    }
  }

  predicate Ascends(us: seq<nat>, i: nat, j: nat)
    requires i < j < |us|
  {
    us[i] < us[j]
  }

  predicate Ascending(us: seq<nat>) {
    forall i, j {:trigger Ascends(us, i, j)} :: 0 <= i < j < |us| ==> Ascends(us, i, j)
  }

  /** The serials on the expiry list of a tick are those of the entries that expire, each once, in order. */
  lemma {:induction false} ExpiringMembers(es: seq<Entry>, k: nat, u: nat)
    requires k <= |es|
    ensures u in Expiring(es, k) <==> exists i :: 0 <= i < k && es[i].serial == u && Expires(es[i])
  {
    if k == 0 {
    } else {
      ExpiringMembers(es, k - 1, u);
    }
  }

  lemma {:induction false} ExpiringAscends(es: seq<Entry>, k: nat)
    requires Increasing(es) && k <= |es|
    ensures Ascending(Expiring(es, k))
  {
    if k == 0 {
    } else {
      ExpiringAscends(es, k - 1);
      var us := Expiring(es, k - 1);
      forall i | 0 <= i < |us| ensures us[i] < es[k - 1].serial { ExpiringMembers(es, k - 1, us[i]); }
      var us' := Expiring(es, k);
      forall i, j {:trigger Ascends(us', i, j)} | 0 <= i < j < |us'| ensures Ascends(us', i, j) {
        assert j < |us| ==> Ascends(us, i, j);
      }
    }
  }

  // ---------- The law of expiry ----------

  /** The tick on which a one-shot expires: the cycles-th after it joined the list, and the first
      for less than one cycle. */
  function DueTick(l: Life): int {
    l.joined + if l.cycles >= 1 then l.cycles else 1
  }

  /** The request is a one-shot that expires after tick a and before tick b. */
  predicate Sweeps(l: Life, a: int, b: int) {
    !l.recurring && a < DueTick(l) < b && (l.ended.Ended? ==> DueTick(l) <= l.ended.tick)
  }

  predicate Swept(lives: seq<Life>, a: int, b: int) {
    exists v :: 0 <= v < |lives| && Sweeps(lives[v], a, b)
  }

  /** Tick t came after the request joined, and not after it was taken off. */
  predicate During(l: Life, t: int) {
    l.joined < t && (l.ended.Ended? ==> t <= l.ended.tick)
  }

  /** The ticks on which a request must expire: a one-shot on the cycles-th tick after it joined
      the list, a recurring one on every cycles-th; nothing after it was taken off.  For less than
      one cycle: a one-shot on the first tick, a recurring one on every tick up to the first on
      which a one-shot expires, which takes it off. */
  predicate Due(lives: seq<Life>, l: Life, t: int) {
    && During(l, t)
    && if !l.recurring then t == DueTick(l)
       else if l.cycles >= 1 then (t - l.joined) % l.cycles == 0
       else !Swept(lives, l.joined, t)
  }

  /** The request is to expire again after tick now, unless a cancel or a clear takes it off. */
  predicate Going(lives: seq<Life>, l: Life, now: nat) {
    if !l.recurring then now < DueTick(l) else l.cycles >= 1 || !Swept(lives, l.joined, now + 1)
  }

  /** The counter of an entry on the list. */
  predicate CounterOk(l: Life, now: nat, counter: int) {
    if !l.recurring then counter == l.joined + l.cycles - now
    else if l.cycles >= 1 then 1 <= counter <= l.cycles && (now + counter - l.joined) % l.cycles == 0
    else counter == l.cycles
  }

  /** An entry on the list is the open request of its serial, and its counter is right. */
  predicate EntryOk(s: State, e: Entry) {
    && e.serial < |s.lives|
    && var l := s.lives[e.serial];
       && l.ended == Open && l.recurring == e.recurring && l.cycles == e.orig && l.joined <= s.now
       && CounterOk(l, s.now, e.counter) && Going(s.lives, l, s.now)
  }

  predicate Listed(es: seq<Entry>, u: nat) {
    exists i :: 0 <= i < |es| && es[i].serial == u
  }

  /** A request that is open and not yet through is on the list. */
  predicate LifeOk(s: State, u: nat)
    requires u < |s.lives|
  {
    var l := s.lives[u];
    && l.joined <= s.now && (l.ended.Ended? ==> l.joined <= l.ended.tick <= s.now)
    && (l.ended == Open && Going(s.lives, l, s.now) ==> Listed(s.entries, u))
  }

  /** The expiry list of a tick is exactly what is due on it, each request once. */
  predicate Exactly(expired: seq<nat>, lives: seq<Life>, t: nat) {
    && Ascending(expired)
    && (forall i :: 0 <= i < |expired| ==> expired[i] < |lives|)
    && (forall u :: 0 <= u < |lives| ==> (u in expired <==> Due(lives, lives[u], t)))
  }

  predicate TickOk(s: State, t: nat)
    requires 1 <= t <= |s.fired|
  {
    Exactly(s.fired[t - 1], s.lives, t)
  }

  predicate Inv(s: State) {
    && |s.fired| == s.now
    && Increasing(s.entries)
    && (forall i :: 0 <= i < |s.entries| ==> EntryOk(s, s.entries[i]))
    && (forall u :: 0 <= u < |s.lives| ==> LifeOk(s, u))
    && (forall t :: 1 <= t <= s.now ==> TickOk(s, t))
  }

  /** What can happen to the stories after tick now: new ones, and ends of open ones. */
  predicate GoesOn(l: Life, l': Life, now: nat) {
    l' == l || (l.ended == Open && l' == l.(ended := Ended(now)))
  }

  predicate Later(ls: seq<Life>, ls': seq<Life>, now: nat) {
    && |ls| <= |ls'|
    && (forall u {:trigger ls'[u]} :: 0 <= u < |ls| ==> GoesOn(ls[u], ls'[u], now))
    && forall u {:trigger ls'[u]} :: |ls| <= u < |ls'| ==> ls'[u].joined == now
  }

  /** The past does not change: up to tick now the same one-shots expire. */
  lemma SweptSame(ls: seq<Life>, ls': seq<Life>, now: nat, a: int, b: int)
    requires Later(ls, ls', now) && b <= now + 1
    ensures Swept(ls', a, b) <==> Swept(ls, a, b)
  {
    if v :| 0 <= v < |ls| && Sweeps(ls[v], a, b) {
      assert GoesOn(ls[v], ls'[v], now) && Sweeps(ls'[v], a, b);
    }
    if v :| 0 <= v < |ls'| && Sweeps(ls'[v], a, b) {
      assert v < |ls| && GoesOn(ls[v], ls'[v], now) && Sweeps(ls[v], a, b);
    }
  }

  lemma DueSame(ls: seq<Life>, ls': seq<Life>, now: nat, u: nat, t: nat)
    requires Later(ls, ls', now) && t <= now && u < |ls'|
    ensures Due(ls', ls'[u], t) <==> u < |ls| && Due(ls, ls[u], t)
  {
    if u < |ls| {
      assert GoesOn(ls[u], ls'[u], now);
      SweptSame(ls, ls', now, ls[u].joined, t);
    }
  }

  lemma TickSame(s: State, s': State, t: nat)
    requires Inv(s) && s'.fired == s.fired && Later(s.lives, s'.lives, s.now) && 1 <= t <= s.now
    ensures TickOk(s', t)
  {
    assert TickOk(s, t);
    forall u | 0 <= u < |s'.lives| ensures u in s.fired[t - 1] <==> Due(s'.lives, s'.lives[u], t) {
      DueSame(s.lives, s'.lives, s.now, u, t);
    }
  }

  lemma GoingSame(ls: seq<Life>, ls': seq<Life>, l: Life, now: nat)
    requires Later(ls, ls', now)
    ensures Going(ls', l, now) <==> Going(ls, l, now)
  {
    SweptSame(ls, ls', now, l.joined, now + 1);
  }

  lemma InvKnowsSerials(s: State)
    requires Inv(s)
    ensures SerialsKnown(s)
  {
    forall i | 0 <= i < |s.entries| ensures s.entries[i].serial < |s.lives| { assert EntryOk(s, s.entries[i]); }
  }

  lemma JustJoined(lives: seq<Life>, l: Life)
    requires l.ended == Open
    ensures CounterOk(l, l.joined, l.cycles) && Going(lives, l, l.joined)
  {
    if l.cycles >= 1 { SelfMod(l.cycles); }
  }

  lemma RequestedKeepsEntries(s: State, id: int, param: int, cycles: int, obs: nat, recurring: bool, i: nat)
    requires Inv(s) && i <= |s.entries|
    ensures var s' := Requested(s, id, param, cycles, obs, recurring); EntryOk(s', s'.entries[i])
  {
    var s' := Requested(s, id, param, cycles, obs, recurring);
    if i < |s.entries| {
      assert EntryOk(s, s.entries[i]);
      GoingSame(s.lives, s'.lives, s.lives[s.entries[i].serial], s.now);
    } else {
      JustJoined(s'.lives, s'.lives[|s.lives|]);
    }
  }

  lemma RequestedKeepsLife(s: State, id: int, param: int, cycles: int, obs: nat, recurring: bool, u: nat)
    requires Inv(s) && u <= |s.lives|
    ensures LifeOk(Requested(s, id, param, cycles, obs, recurring), u)
  {
    var s' := Requested(s, id, param, cycles, obs, recurring);
    if u < |s.lives| {
      assert LifeOk(s, u);
      GoingSame(s.lives, s'.lives, s.lives[u], s.now);
      if Listed(s.entries, u) {
        var i :| 0 <= i < |s.entries| && s.entries[i].serial == u;
        assert s'.entries[i].serial == u;
      }
    } else {
      assert s'.entries[|s.entries|].serial == u;
    }
  }

  lemma RequestedKeepsInv(s: State, id: int, param: int, cycles: int, obs: nat, recurring: bool)
    requires Inv(s)
    ensures Inv(Requested(s, id, param, cycles, obs, recurring))
  {
    var s' := Requested(s, id, param, cycles, obs, recurring);
    InvKnowsSerials(s);
    forall i | 0 <= i < |s'.entries| ensures EntryOk(s', s'.entries[i]) {
      RequestedKeepsEntries(s, id, param, cycles, obs, recurring, i);
    }
    forall u | 0 <= u < |s'.lives| ensures LifeOk(s', u) {
      RequestedKeepsLife(s, id, param, cycles, obs, recurring, u);
    }
    forall t | 1 <= t <= s'.now ensures TickOk(s', t) { TickSame(s, s', t); }
  }

  lemma SelfMod(c: int)
    requires c >= 1
    ensures c % c == 0
  {
  }

  lemma DroppedGoesOn(s: State, i: nat)
    requires Inv(s) && SerialsKnown(s) && i < |s.entries|
    ensures Later(s.lives, Dropped(s, i).lives, s.now)
  {
    assert EntryOk(s, s.entries[i]);
  }

  lemma DroppedKeepsEntries(s: State, i: nat, j: nat)
    requires Inv(s) && SerialsKnown(s) && i < |s.entries| && j < |s.entries| - 1
    ensures EntryOk(Dropped(s, i), Dropped(s, i).entries[j])
  {
    var k := if j < i then j else j + 1;
    assert Dropped(s, i).entries[j] == s.entries[k] && EntryOk(s, s.entries[k]);
    assert s.entries[k].serial != s.entries[i].serial;
    DroppedGoesOn(s, i);
    GoingSame(s.lives, Dropped(s, i).lives, s.lives[s.entries[k].serial], s.now);
  }

  lemma DroppedKeepsLife(s: State, i: nat, u: nat)
    requires Inv(s) && SerialsKnown(s) && i < |s.entries| && u < |s.lives|
    ensures LifeOk(Dropped(s, i), u)
  {
    assert LifeOk(s, u);
    DroppedGoesOn(s, i);
    GoingSame(s.lives, Dropped(s, i).lives, s.lives[u], s.now);
    if u != s.entries[i].serial && Listed(s.entries, u) {
      var k :| 0 <= k < |s.entries| && s.entries[k].serial == u;
      assert Dropped(s, i).entries[if k < i then k else k - 1].serial == u;
    }
  }

  lemma DroppedKeepsInv(s: State, i: nat)
    requires Inv(s) && SerialsKnown(s) && i < |s.entries|
    ensures Inv(Dropped(s, i))
  {
    var s' := Dropped(s, i);
    assert EntryOk(s, s.entries[i]);
    DroppedGoesOn(s, i);
    forall j | 0 <= j < |s'.entries| ensures EntryOk(s', s'.entries[j]) { DroppedKeepsEntries(s, i, j); }
    forall u | 0 <= u < |s'.lives| ensures LifeOk(s', u) { DroppedKeepsLife(s, i, u); }
    forall t | 1 <= t <= s'.now ensures TickOk(s', t) { TickSame(s, s', t); }
  }

  lemma CancelledKeepsInv(s: State, id: int, param: int)
    requires Inv(s) && SerialsKnown(s)
    ensures Inv(Cancelled(s, id, param))
  {
    var i := FirstMatch(s.entries, id, param);
    if i < |s.entries| { DroppedKeepsInv(s, i); }
  }

  lemma {:induction false} ClearedKeepsInv(s: State)
    requires Inv(s) && SerialsKnown(s)
    ensures Inv(Cleared(s)) && Cleared(s).entries == []
    decreases |s.entries|
  {
    if s.entries == [] {
    } else {
      DroppedKeepsInv(s, 0);
      InvKnowsSerials(Dropped(s, 0));
      ClearedKeepsInv(Dropped(s, 0));
    }
  }

  lemma {:induction false} CancelAllKeepsInv(s: State, cmds: seq<Cmd>)
    requires Inv(s) && SerialsKnown(s) && OnlyCancels(cmds)
    ensures Inv(CancelAll(s, cmds))
  {
    if cmds == [] {
    } else {
      var c := cmds[|cmds| - 1];
      CancelAllKeepsInv(s, cmds[..|cmds| - 1]);
      CancelledKeepsInv(CancelAll(s, cmds[..|cmds| - 1]), c.id, c.param);
    }
  }

  lemma {:induction false} RequestAllKeepsInv(s: State, cmds: seq<Cmd>)
    requires Inv(s) && SerialsKnown(s) && OnlyRequests(cmds)
    ensures Inv(RequestAll(s, cmds))
  {
    if cmds == [] {
    } else {
      var c := cmds[|cmds| - 1];
      RequestAllKeepsInv(s, cmds[..|cmds| - 1]);
      RequestedKeepsInv(RequestAll(s, cmds[..|cmds| - 1]), c.id, c.param, c.cycles, c.obs, false);
    }
  }

  // ---------- The tick keeps the invariant ----------

  /** Between ticks an entry expires on the next tick exactly when its request is due on it. */
  lemma ExpiresWhenDue(s: State, e: Entry)
    requires EntryOk(s, e)
    ensures Expires(e) <==> Due(s.lives, s.lives[e.serial], s.now + 1)
  {
    var l := s.lives[e.serial];
    if l.recurring && l.cycles >= 1 { ModStep(s.now + e.counter - l.joined, e.counter, l.cycles); }
  }

  lemma MulBounds(m: int, d: int)
    requires m >= 1
    ensures (d >= 1 ==> m * d >= m) && (d <= -1 ==> m * d <= -m)
  {
  }

  /** The only multiple of m that is closer to zero than m is zero. */
  lemma SmallMultiple(m: int, d: int, r: int)
    requires m >= 1 && m * d == r && -m < r < m
    ensures r == 0
  {
    MulBounds(m, d);
  }

  /** Counting x down by one less than c, 1 <= c <= m, meets a multiple of m exactly when c is 1. */
  lemma ModStep(x: int, c: int, m: int)
    requires m >= 1 && 1 <= c <= m && x % m == 0
    ensures (x - c + 1) % m == 0 <==> c == 1
  {
    var q, p := x / m, (x - c + 1) / m;
    assert x == m * q;
    if (x - c + 1) % m == 0 {
      assert x - c + 1 == m * p;
      assert m * (q - p) == c - 1;
      SmallMultiple(m, q - p, c - 1);
    }
  }

  lemma ModAddSelf(x: int, m: int)
    requires m >= 1 && x % m == 0
    ensures (x + m) % m == 0
  {
    var q, p, r := x / m, (x + m) / m, (x + m) % m;
    assert x == m * q && x + m == m * p + r;
    assert m * (q + 1 - p) == r;
    SmallMultiple(m, q + 1 - p, r);
  }

  /** A one-shot expires on the next tick exactly if an entry says so. */
  lemma SweptNext(s: State, a: int)
    requires Inv(s) && a <= s.now
    ensures Swept(s.lives, a, s.now + 2) <==> Swept(s.lives, a, s.now + 1) || OneShotExpires(s.entries)
  {
    if OneShotExpires(s.entries) {
      var i :| 0 <= i < |s.entries| && Expires(s.entries[i]) && !s.entries[i].recurring;
      assert EntryOk(s, s.entries[i]);
      assert Sweeps(s.lives[s.entries[i].serial], a, s.now + 2);
    }
    if v :| 0 <= v < |s.lives| && Sweeps(s.lives[v], a, s.now + 1) {
      assert Sweeps(s.lives[v], a, s.now + 2);
    }
    if v :| 0 <= v < |s.lives| && Sweeps(s.lives[v], a, s.now + 2) {
      if !Sweeps(s.lives[v], a, s.now + 1) { OneShotNow(s, v); }
    }
  }

  lemma OneShotNow(s: State, v: nat)
    requires Inv(s) && v < |s.lives| && Sweeps(s.lives[v], s.now, s.now + 2)
    ensures OneShotExpires(s.entries)
  {
    assert LifeOk(s, v);
    var i :| 0 <= i < |s.entries| && s.entries[i].serial == v;
    assert EntryOk(s, s.entries[i]);
  }

  /** The counter after a tick is right, unless it is a one-shot's that expired. */
  lemma TickedCounter(s: State, e: Entry)
    requires EntryOk(s, e) && !(Expires(e) && !e.recurring)
    ensures CounterOk(s.lives[e.serial], s.now + 1, Ticked(e).counter)
  {
    if Expires(e) && e.orig >= 1 { ModAddSelf(s.now + 1 - s.lives[e.serial].joined, e.orig); }
  }

  /** An entry survives the tick exactly if its request is to expire again. */
  lemma SurvivesWhen(s: State, e: Entry)
    requires Inv(s) && e in s.entries && EntryOk(s, e)
    ensures Ticked(e) in Surviving(s.entries) <==> Going(s.lives, s.lives[e.serial], s.now + 1)
    ensures Ticked(e) in Surviving(s.entries) ==> CounterOk(s.lives[e.serial], s.now + 1, Ticked(e).counter)
  {
    RemovedExactlyWhen(s.entries, e);
    SweptNext(s, s.lives[e.serial].joined);
    if Expires(e) && !e.recurring {
      var i :| 0 <= i < |s.entries| && s.entries[i] == e;
      assert OneShotExpires(s.entries);
    } else {
      TickedCounter(s, e);
    }
  }

  lemma SurvivingMembers(es: seq<Entry>, e: Entry)
    requires e in Surviving(es)
    ensures exists j :: 0 <= j < |es| && Ticked(es[j]) == e
  {
    PositiveMembers(TickAll(es), e);
    var j :| 0 <= j < |TickAll(es)| && TickAll(es)[j] == e;
    assert Ticked(es[j]) == e;
  }

  lemma SurvivingIncreasing(es: seq<Entry>)
    requires Increasing(es)
    ensures Increasing(Surviving(es))
  {
    PositiveIncreasing(TickAll(es));
  }

  lemma {:induction false} AllPositive(es: seq<Entry>)
    requires forall i :: 0 <= i < |es| ==> es[i].counter > 0
    ensures Positive(es) == es
  {
    if es == [] {
    } else {
      AllPositive(es[..|es| - 1]);
    }
  }

  /** The expiry list of the next tick. */
  lemma ExpiringExactly(s: State)
    requires Inv(s)
    ensures Exactly(Expiring(s.entries, |s.entries|), s.lives, s.now + 1)
  {
    ExpiringAscends(s.entries, |s.entries|);
    var expired := Expiring(s.entries, |s.entries|);
    forall k | 0 <= k < |expired| ensures expired[k] < |s.lives| {
      ExpiringMembers(s.entries, |s.entries|, expired[k]);
      var i :| 0 <= i < |s.entries| && s.entries[i].serial == expired[k];
      assert EntryOk(s, s.entries[i]);
    }
    forall u | 0 <= u < |s.lives| ensures u in expired <==> Due(s.lives, s.lives[u], s.now + 1) {
      ExpiringMembers(s.entries, |s.entries|, u);
      assert LifeOk(s, u);
      forall i | 0 <= i < |s.entries| && s.entries[i].serial == u
        ensures Expires(s.entries[i]) <==> Due(s.lives, s.lives[u], s.now + 1)
      {
        assert EntryOk(s, s.entries[i]);
        ExpiresWhenDue(s, s.entries[i]);
      }
      if Due(s.lives, s.lives[u], s.now + 1) {
        var i :| 0 <= i < |s.entries| && s.entries[i].serial == u;
      }
    }
  }

  lemma FiredKeepsEntries(s: State, global: nat, i: nat)
    requires Inv(s) && i < |Fired(s, global).entries|
    ensures EntryOk(Fired(s, global), Fired(s, global).entries[i])
  {
    var e := Fired(s, global).entries[i];
    SurvivingMembers(s.entries, e);
    var j :| 0 <= j < |s.entries| && Ticked(s.entries[j]) == e;
    assert EntryOk(s, s.entries[j]);
    SurvivesWhen(s, s.entries[j]);
  }

  lemma FiredKeepsLife(s: State, global: nat, u: nat)
    requires Inv(s) && u < |s.lives|
    ensures LifeOk(Fired(s, global), u)
  {
    var s', l := Fired(s, global), s.lives[u];
    assert LifeOk(s, u);
    if l.ended == Open && Going(s.lives, l, s'.now) {
      SweptNext(s, l.joined);
      var i :| 0 <= i < |s.entries| && s.entries[i].serial == u;
      assert EntryOk(s, s.entries[i]);
      SurvivesWhen(s, s.entries[i]);
      var k :| 0 <= k < |s'.entries| && s'.entries[k] == Ticked(s.entries[i]);
    }
  }

  lemma FiredKeepsTicks(s: State, global: nat, t: nat)
    requires Inv(s) && 1 <= t <= s.now + 1
    ensures TickOk(Fired(s, global), t)
  {
    if t <= s.now { assert TickOk(s, t); } else { ExpiringExactly(s); }
  }

  lemma FiredKeepsInv(s: State, global: nat)
    requires Inv(s)
    ensures Inv(Fired(s, global))
  {
    var s' := Fired(s, global);
    SurvivingIncreasing(s.entries);
    forall i | 0 <= i < |s'.entries| ensures EntryOk(s', s'.entries[i]) { FiredKeepsEntries(s, global, i); }
    forall u | 0 <= u < |s'.lives| ensures LifeOk(s', u) { FiredKeepsLife(s, global, u); }
    forall t | 1 <= t <= s'.now ensures TickOk(s', t) { FiredKeepsTicks(s, global, t); }
  }

  lemma NextKeepsInv(s: State, e: Event)
    requires Inv(s) && SerialsKnown(s) && Fits(s, e)
    ensures Inv(Next(s, e)) && SerialsKnown(Next(s, e))
  {
    match e
    case Ask(Request(id, param, cycles, obs, recurring)) => RequestedKeepsInv(s, id, param, cycles, obs, recurring);
    case Ask(Cancel(id, param)) => CancelledKeepsInv(s, id, param);
    case ClearAll => ClearedKeepsInv(s);
    case Tick(script, global) =>
      var asked := Asked(s.entries, script, global, |s.entries|);
      FiredKnowsSerials(s, global);
      CommandsSplit(asked);
      FiredKeepsInv(s, global);
      CancelAllKeepsInv(Fired(s, global), Cancels(asked));
      RequestAllKeepsInv(CancelAll(Fired(s, global), Cancels(asked)), Requests(asked));
    InvKnowsSerials(Next(s, e));
  }

  // ---------- Whole runs ----------

  ghost predicate IsRun(states: seq<State>, events: seq<Event>) {
    && |states| == |events| + 1 && states[0] == START
    && forall i :: 0 <= i < |events| ==>
      SerialsKnown(states[i]) && Fits(states[i], events[i]) && states[i + 1] == Next(states[i], events[i])
  }

  /** Over every run of requests, cancels, clears and ticks, whatever the callbacks ask for: on
      each tick exactly the requests that are due expire, each once. */
  lemma {:induction false} ExpiryLaw(states: seq<State>, events: seq<Event>, k: nat)
    requires IsRun(states, events) && k <= |events|
    ensures Inv(states[k]) && |states[k].fired| == states[k].now
    ensures forall t :: 1 <= t <= states[k].now ==> TickOk(states[k], t)
  {
    if k == 0 {
    } else {
      ExpiryLaw(states, events, k - 1);
      NextKeepsInv(states[k - 1], events[k - 1]);
    }
  }

  /** A one-shot request that was not taken off before its tick has expired on that tick and on
      no other. */
  lemma OneShotExpiresOnce(states: seq<State>, events: seq<Event>, k: nat, u: nat)
    requires IsRun(states, events) && k <= |events| && u < |states[k].lives|
    requires var l := states[k].lives[u];
             var due := l.joined + if l.cycles >= 1 then l.cycles else 1;
             !l.recurring && due <= states[k].now && (l.ended.Ended? ==> due <= l.ended.tick)
    ensures var l := states[k].lives[u];
            var due := l.joined + if l.cycles >= 1 then l.cycles else 1;
            forall i :: 0 <= i < |states[k].fired| ==> (u in states[k].fired[i] <==> i + 1 == due)
  {
    ExpiryLaw(states, events, k);
    assert LifeOk(states[k], u);
    forall i | 0 <= i < |states[k].fired|
      ensures u in states[k].fired[i] <==> i + 1 == DueTick(states[k].lives[u])
    {
      assert TickOk(states[k], i + 1);
    }
  }

  /** A recurring request of at least one cycle expires on every cycles-th tick after it joined
      until it is taken off, and on no other. */
  lemma RecurringExpiresEveryCycle(states: seq<State>, events: seq<Event>, k: nat, u: nat)
    requires IsRun(states, events) && k <= |events| && u < |states[k].lives|
    requires states[k].lives[u].recurring && states[k].lives[u].cycles >= 1
    ensures var l := states[k].lives[u];
            forall i :: 0 <= i < |states[k].fired| ==>
              (u in states[k].fired[i] <==>
               l.joined <= i && (l.ended.Ended? ==> i < l.ended.tick) && (i + 1 - l.joined) % l.cycles == 0)
  {
    ExpiryLaw(states, events, k);
    var l := states[k].lives[u];
    forall i | 0 <= i < |states[k].fired|
      ensures u in states[k].fired[i] <==> During(l, i + 1) && (i + 1 - l.joined) % l.cycles == 0
    {
      assert TickOk(states[k], i + 1);
    }
  }

  /** A one-shot expired on tick t. */
  predicate OneShotOn(s: State, t: int) {
    1 <= t <= |s.fired| && exists v :: v in s.fired[t - 1] && v < |s.lives| && !s.lives[v].recurring
  }

  lemma SweptIsOneShot(s: State, a: nat, b: nat)
    requires Inv(s) && b <= s.now + 1
    ensures Swept(s.lives, a, b) <==> exists t :: a < t < b && OneShotOn(s, t)
  {
    if v :| 0 <= v < |s.lives| && Sweeps(s.lives[v], a, b) {
      assert TickOk(s, DueTick(s.lives[v])) && Due(s.lives, s.lives[v], DueTick(s.lives[v]));
      assert OneShotOn(s, DueTick(s.lives[v]));
    }
    if t :| a < t < b && OneShotOn(s, t) {
      var v :| v in s.fired[t - 1] && v < |s.lives| && !s.lives[v].recurring;
      assert TickOk(s, t) && Sweeps(s.lives[v], a, b);
    }
  }

  /** A recurring request of less than one cycle expires on every tick after it joined until it is
      taken off, the last time on the first tick on which a one-shot expires too. */
  lemma RecurringBelowOneCycle(states: seq<State>, events: seq<Event>, k: nat, u: nat)
    requires IsRun(states, events) && k <= |events| && u < |states[k].lives|
    requires states[k].lives[u].recurring && states[k].lives[u].cycles < 1
    ensures var l := states[k].lives[u];
            forall i :: 0 <= i < |states[k].fired| ==>
              (u in states[k].fired[i] <==>
               && l.joined <= i && (l.ended.Ended? ==> i < l.ended.tick)
               && forall t :: l.joined < t <= i ==> !OneShotOn(states[k], t))
  {
    ExpiryLaw(states, events, k);
    var l := states[k].lives[u];
    forall i | 0 <= i < |states[k].fired|
      ensures u in states[k].fired[i]
         <==> During(l, i + 1) && forall t :: l.joined < t <= i ==> !OneShotOn(states[k], t)
    {
      assert TickOk(states[k], i + 1);
      SweptIsOneShot(states[k], l.joined, i + 1);
    }
  }

  // ---------- What the stories record ----------

  /** A story keeps what was asked for, and an end once recorded stays. */
  predicate Continues(ls: seq<Life>, ls': seq<Life>) {
    && |ls| <= |ls'|
    && forall u :: 0 <= u < |ls| ==>
         ls'[u].joined == ls[u].joined && ls'[u].cycles == ls[u].cycles && ls'[u].recurring == ls[u].recurring
         && ls'[u].id == ls[u].id && ls'[u].param == ls[u].param && ls'[u].obs == ls[u].obs
         && (ls[u].ended.Ended? ==> ls'[u].ended == ls[u].ended)
  }

  lemma {:induction false} CancelAllContinues(s: State, cmds: seq<Cmd>)
    requires Inv(s) && SerialsKnown(s) && OnlyCancels(cmds)
    ensures Continues(s.lives, CancelAll(s, cmds).lives) && |CancelAll(s, cmds).lives| == |s.lives|
    ensures CancelAll(s, cmds).now == s.now
  {
    if cmds == [] {
    } else {
      var c, s1 := cmds[|cmds| - 1], CancelAll(s, cmds[..|cmds| - 1]);
      CancelAllContinues(s, cmds[..|cmds| - 1]);
      CancelAllKeepsInv(s, cmds[..|cmds| - 1]);
      var i := FirstMatch(s1.entries, c.id, c.param);
      if i < |s1.entries| { assert EntryOk(s1, s1.entries[i]); }
    }
  }

  /** Every deferred request joins after the tick as a one-shot, whatever it asked for. */
  lemma {:induction false} DeferredRequestsAreOneShot(s: State, cmds: seq<Cmd>)
    requires SerialsKnown(s) && OnlyRequests(cmds)
    ensures var r := RequestAll(s, cmds);
            && r.now == s.now && |r.lives| == |s.lives| + |cmds| && r.lives[..|s.lives|] == s.lives
            && forall i :: 0 <= i < |cmds| ==>
              r.lives[|s.lives| + i] == Life(s.now, cmds[i].cycles, false, Open, cmds[i].id, cmds[i].param, cmds[i].obs)
  {
    if cmds == [] {
    } else {
      DeferredRequestsAreOneShot(s, cmds[..|cmds| - 1]);
    }
  }

  lemma DroppedContinues(s: State, i: nat)
    requires Inv(s) && SerialsKnown(s) && i < |s.entries|
    ensures Continues(s.lives, Dropped(s, i).lives)
  {
    assert EntryOk(s, s.entries[i]);
  }

  lemma ContinuesOn(a: seq<Life>, b: seq<Life>, c: seq<Life>)
    requires Continues(a, b) && Continues(b, c)
    ensures Continues(a, c)
  {
    assert |a| <= |b| <= |c|;
  }

  lemma {:induction false} ClearedContinues(s: State)
    requires Inv(s) && SerialsKnown(s)
    ensures Continues(s.lives, Cleared(s).lives)
    decreases |s.entries|
  {
    if s.entries == [] {
    } else {
      var s1 := Dropped(s, 0);
      DroppedContinues(s, 0);
      DroppedKeepsInv(s, 0);
      InvKnowsSerials(s1);
      ClearedContinues(s1);
      ContinuesOn(s.lives, s1.lives, Cleared(s1).lives);
    }
  }

  /** One event never rewrites a story. */
  lemma NextContinues(s: State, e: Event)
    requires Inv(s) && SerialsKnown(s) && Fits(s, e)
    ensures Continues(s.lives, Next(s, e).lives)
  {
    match e
    case Ask(Request(_, _, _, _, _)) =>
    case Ask(Cancel(id, param)) =>
      var i := FirstMatch(s.entries, id, param);
      if i < |s.entries| { assert EntryOk(s, s.entries[i]); }
    case ClearAll => ClearedContinues(s);
    case Tick(script, global) =>
      var asked := Asked(s.entries, script, global, |s.entries|);
      FiredKnowsSerials(s, global);
      CommandsSplit(asked);
      FiredKeepsInv(s, global);
      CancelAllContinues(Fired(s, global), Cancels(asked));
      DeferredRequestsAreOneShot(CancelAll(Fired(s, global), Cancels(asked)), Requests(asked));
  }

  // ---------- Below one cycle ----------

  /** Whatever the cycle counts: an entry is off the list after the removal pass exactly when a
      one-shot expired on the tick and the entry's own counter is not positive.  A recurring
      entry of less than one cycle starts over at such a counter, so it is lost then. */
  lemma RemovedExactlyWhen(es: seq<Entry>, e: Entry)
    requires e in es
    ensures Ticked(e) in Surviving(es) <==> !OneShotExpires(es) || Ticked(e).counter > 0
  {
    var i :| 0 <= i < |es| && es[i] == e;
    assert TickAll(es)[i] == Ticked(e);
    PositiveMembers(TickAll(es), Ticked(e));
  }

  lemma RecurringBelowOneCycleIsLost()
    ensures var r := Entry(0, 1, 0, 0, 1, true, 0); var o := Entry(1, 2, 0, 1, 1, false, 1);
            r.recurring && Ticked(r) !in Surviving([r, o])
  {
    var r, o := Entry(0, 1, 0, 0, 1, true, 0), Entry(1, 2, 0, 1, 1, false, 1);
    assert [r, o][1] == o;
    RemovedExactlyWhen([r, o], r);
  }

  // ---------- A recurring request made in a callback ----------

  /** A one-shot expires on the first tick; its callback requests a recurring timer of one cycle. */
  const ASKS: seq<seq<Cmd>> := [[Request(2, 0, 1, 1, true)]]

  /** The timer requested there expires on the second tick, and is gone. */
  lemma DeferredRecurringIsLost() returns (s1: State, s2: State, s3: State)
    ensures s1 == Requested(START, 1, 0, 1, 1, false) && SerialsKnown(s1) && |s1.entries| == 1
    ensures s2 == Elapsed(s1, ASKS, 0) && SerialsKnown(s2) && |s2.entries| == 1
    ensures s3 == Elapsed(s2, [[]], 0) && s3.entries == [] && s3.fired == [[0], [1]]
    ensures Notified(s1.entries, 0, 1) == [Call(0, 1, 1, 0)] && Notified(s2.entries, 0, 1) == [Call(1, 1, 2, 0)]
  {
    var c := Request(2, 0, 1, 1, true);
    var e1, e2 := Entry(0, 1, 0, 1, 1, false, 1), Entry(1, 2, 0, 1, 1, false, 1);
    s1 := Requested(START, 1, 0, 1, 1, false);
    assert s1.entries == [e1];
    OneEntryGoes(e1);
    assert Asked([e1], ASKS, 0, 1) == [c];
    OneRequest(Fired(s1, 0), c);
    s2 := Elapsed(s1, ASKS, 0);
    assert s2.entries == [e2];
    OneEntryGoes(e2);
    assert Asked([e2], [[]], 0, 1) == [];
    s3 := Elapsed(s2, [[]], 0);
  }

  /** A one-shot at its last cycle, alone on the list. */
  lemma OneEntryGoes(e: Entry)
    requires e.counter == 1 && !e.recurring
    ensures Surviving([e]) == [] && Expiring([e], 1) == [e.serial]
  {
    assert [e][0] == e && OneShotAmong([e], 1);
    var es := TickAll([e]);
    var init := es[..|es| - 1];
    assert es == [Ticked(e)] && init == [];
    assert Positive(init) == [];
  }

  lemma OneRequest(s: State, c: Cmd)
    requires SerialsKnown(s) && c.Request?
    ensures Answered(s, [c]) == Requested(s, c.id, c.param, c.cycles, c.obs, false)
  {
    var init := [c][..|[c]| - 1];
    assert init == [] && Cancels(init) == [] && Requests(init) == [];
    assert Cancels([c]) == [] && Requests([c]) == [c];
    CommandsSplit([c]);
    assert RequestAll(s, init) == s;
  }
}
