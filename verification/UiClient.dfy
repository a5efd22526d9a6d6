/** The request and response bookkeeping of the panel client: one port, numbered requests, timers, disposal. */
module UiClient {
  /** A call of the panel's code, known by a number of its own. */
  type CallId = nat

  /** How a promise is settled; `Unsendable` is the error of a message that cannot be cloned. */
  datatype Settlement = Resolved | RejectedByHost | TimedOut | Closed | NotConnected | Unsendable

  /** The connection promise: still open, resolved, or rejected by its timer or by the disposal. */
  datatype Readiness = Waiting | Connected | Lost | Shut

  /** `pending` maps request ids to the calls waiting for them, `armed` holds the ids whose timer is still set;
      `entered` are the calls still waiting for the connection. `sent`, `unsent` and `settled` record the past: the ids
      handed out, the calls whose message could not be posted, and for each call its settlements in order. The first one
      is the outcome of its promise, later ones change nothing. */
  datatype State = State(
    port: bool, serial: nat, disposed: bool, ready: Readiness, connectTimer: bool,
    pending: map<nat, CallId>, armed: set<nat>,
    entered: set<CallId>, sent: map<nat, CallId>, unsent: set<CallId>, settled: map<CallId, seq<Settlement>>)

  const INITIAL := State(false, 0, false, Waiting, true, map[], {}, {}, map[], {}, map[])

  datatype Event =
    | Connect
    | ConnectTimeout
    | Call(call: CallId)
    | Proceed(call: CallId, cloneable: bool)
    | Response(id: nat, ok: bool)
    | Timeout(id: nat)
    | Dispose

  function Settle(settled: map<CallId, seq<Settlement>>, call: CallId, how: Settlement): map<CallId, seq<Settlement>> {
    settled[call := (if call in settled then settled[call] else []) + [how]]
  }

  /** Every pending call is rejected, each once, in any order. */
  function SettleAll(settled: map<CallId, seq<Settlement>>, calls: set<CallId>): map<CallId, seq<Settlement>> {
    map c | c in settled.Keys + calls ::
      (if c in settled then settled[c] else []) + (if c in calls then [Closed] else [])
  }

  /** A call number is used once. */
  predicate Known(s: State, call: CallId) {
    call in s.entered || call in s.sent.Values || call in s.settled
  }

  /** A request is numbered, its timer armed and its entry made before its message is posted. */
  function Request(s: State, call: CallId): State {
    var id := s.serial + 1;
    s.(serial := id, entered := s.entered - {call}, pending := s.pending[id := call], armed := s.armed + {id},
       sent := s.sent[id := call])
  }

  /** A request whose message cannot be posted. */
  function Rejected(t: State, call: CallId): State { t.(unsent := t.unsent + {call}, settled := Settle(t.settled, call, Unsendable)) }

  /** One turn of the event loop. An event that cannot happen in `s` changes nothing. */
  function Next(s: State, e: Event): State {
    match e
    case Connect =>
      if s.disposed || s.port then s
      else s.(port := true, connectTimer := false, ready := if s.ready == Waiting then Connected else s.ready)
    case ConnectTimeout =>
      if !s.connectTimer then s
      else s.(connectTimer := false, ready := if s.ready == Waiting then Lost else s.ready)
    case Call(call) =>
      if Known(s, call) then s else s.(entered := s.entered + {call})
    case Proceed(call, cloneable) =>
      if call !in s.entered || s.ready == Waiting then s
      else if s.ready == Lost then s.(entered := s.entered - {call}, settled := Settle(s.settled, call, NotConnected))
      else if s.ready == Shut || s.disposed then s.(entered := s.entered - {call}, settled := Settle(s.settled, call, Closed))
      else if cloneable then Request(s, call)
      else Rejected(Request(s, call), call)
    case Response(id, ok) =>
      if !s.port || id !in s.pending then s
      else s.(pending := s.pending - {id}, armed := s.armed - {id},
              settled := Settle(s.settled, s.pending[id], if ok then Resolved else RejectedByHost))
    case Timeout(id) =>
      if id !in s.armed || id !in s.sent then s
      else s.(pending := s.pending - {id}, armed := s.armed - {id}, settled := Settle(s.settled, s.sent[id], TimedOut))
    case Dispose =>
      s.(disposed := true, connectTimer := false, ready := if s.ready == Waiting then Shut else s.ready,
         armed := s.armed - s.pending.Keys, pending := map[], settled := SettleAll(s.settled, s.pending.Values))
  }

  type Machine = (State, Event) -> State

  function RunWith(next: Machine, events: seq<Event>): State {
    if events == [] then INITIAL else next(RunWith(next, events[..|events| - 1]), events[|events| - 1])
  }

  function Run(events: seq<Event>): State { RunWith(Next, events) }

  lemma RunOneMore(events: seq<Event>, e: Event)
    ensures Run(events + [e]) == Next(Run(events), e)
  {
    assert (events + [e])[..|events|] == events;
  }

  lemma {:induction false} InvariantHolds(next: Machine, inv: State -> bool, events: seq<Event>)
    requires inv(INITIAL) && forall s, e :: inv(s) ==> inv(next(s, e))
    ensures inv(RunWith(next, events))
  {
    if events != [] {
      InvariantHolds(next, inv, events[..|events| - 1]);
    }
  }

  /** What every step from a good state relates, the whole rest of a run relates. */
  lemma {:induction false} RestRelates(next: Machine, inv: State -> bool, rel: (State, State) -> bool, before: seq<Event>, after: seq<Event>)
    requires inv(INITIAL) && forall s, e :: inv(s) ==> inv(next(s, e)) && rel(s, next(s, e))
    requires (forall s :: rel(s, s)) && forall s, t, u :: rel(s, t) && rel(t, u) ==> rel(s, u)
    ensures rel(RunWith(next, before), RunWith(next, before + after))
  {
    if after == [] {
      assert before + after == before;
    } else {
      var n := |after| - 1;
      var whole, shorter := before + after, before + after[..n];
      assert whole[..|whole| - 1] == shorter && whole[|whole| - 1] == after[n];
      RestRelates(next, inv, rel, before, after[..n]);
      InvariantHolds(next, inv, shorter);
      assert rel(RunWith(next, shorter), next(RunWith(next, shorter), after[n]));
    }
  }

  // ---- The invariant ----

  ghost predicate Injective(m: map<nat, CallId>) {
    forall i, j :: i in m && j in m && m[i] == m[j] ==> i == j
  }

  /** Ids are handed out once, timers run exactly for the pending requests, and nothing is pending after disposal. */
  ghost predicate Numbered(s: State) {
    && s.armed == s.pending.Keys
    && (forall i :: i in s.pending ==> i in s.sent && s.sent[i] == s.pending[i])
    && (forall i :: i in s.sent ==> 1 <= i <= s.serial)
    && Injective(s.sent)
    && (s.disposed ==> s.pending == map[] && s.ready != Waiting)
  }

  /** The settlements of a call that was not unsendable are at most one; an unsendable call may see a second, idle one. */
  ghost predicate Counted(s: State) {
    && (forall c :: c in s.settled ==> |s.settled[c]| == 1 || (|s.settled[c]| == 2 && c in s.unsent))
    && (forall c :: c in s.unsent ==> c in s.settled && s.settled[c][0] == Unsendable)
    && (forall i :: i in s.pending && s.pending[i] in s.unsent ==> s.settled[s.pending[i]] == [Unsendable])
  }

  /** Waiting, pending and settled exclude each other, except for unsendable calls, which stay pending; and a numbered
      request is pending or settled. */
  ghost predicate Exclusive(s: State) {
    && (forall c :: c in s.entered ==> c !in s.settled)
    && (forall i :: i in s.sent ==> s.sent[i] !in s.entered)
    && (forall i :: i in s.pending && s.pending[i] !in s.unsent ==> s.pending[i] !in s.settled)
    && (forall i :: i in s.sent ==> i in s.pending || s.sent[i] in s.settled)
  }

  ghost predicate Inv(s: State) { Numbered(s) && Counted(s) && Exclusive(s) }

  lemma Appended(settled: map<CallId, seq<Settlement>>, call: CallId, how: Settlement)
    ensures var after := Settle(settled, call, how);
            && after[call] == (if call in settled then settled[call] + [how] else [how])
            && forall c :: c != call ==> (c in after <==> c in settled) && (c in settled ==> after[c] == settled[c])
  {
    assert [] + [how] == [how];
  }

  /** The call has not asked for anything yet. */
  ghost predicate New(s: State, call: CallId) {
    && call in s.entered && call !in s.settled && call !in s.unsent
    && forall i :: i in s.sent ==> s.sent[i] != call
  }

  lemma RequestNumbered(s: State, call: CallId)
    requires Numbered(s) && New(s, call) && s.ready == Connected && !s.disposed
    ensures Numbered(Request(s, call))
  {
    var t := Request(s, call);
    assert forall i :: i in t.sent ==> i == t.serial || (i in s.sent && t.sent[i] == s.sent[i]);
  }

  lemma RequestPlaced(s: State, call: CallId)
    requires Numbered(s) && Counted(s) && Exclusive(s) && New(s, call)
    ensures Counted(Request(s, call)) && Exclusive(Request(s, call))
  {
    var t := Request(s, call);
    assert forall i :: i in t.sent ==> i == t.serial || (i in s.sent && t.sent[i] == s.sent[i]);
  }

  lemma RejectedPlaced(t: State, call: CallId)
    requires Numbered(t) && Counted(t) && Exclusive(t) && call !in t.settled && call !in t.entered
    ensures Counted(Rejected(t, call)) && Exclusive(Rejected(t, call)) && Numbered(Rejected(t, call))
  {
    Appended(t.settled, call, Unsendable);
  }

  lemma ProceedKeeps(s: State, call: CallId, cloneable: bool)
    requires Inv(s)
    ensures Inv(Next(s, Proceed(call, cloneable)))
  {
    if call in s.entered && s.ready != Waiting {
      if s.ready == Lost || s.ready == Shut || s.disposed {
        TurnedAwayKeeps(s, call, if s.ready == Lost then NotConnected else Closed);
      } else {
        RequestKeeps(s, call, cloneable);
      }
    }
  }

  lemma TurnedAwayKeeps(s: State, call: CallId, how: Settlement)
    requires Inv(s) && call in s.entered
    ensures Inv(s.(entered := s.entered - {call}, settled := Settle(s.settled, call, how)))
  {
    Appended(s.settled, call, how);
  }

  lemma RequestKeeps(s: State, call: CallId, cloneable: bool)
    requires Inv(s) && call in s.entered && s.ready == Connected && !s.disposed
    ensures Inv(if cloneable then Request(s, call) else Rejected(Request(s, call), call))
  {
    assert New(s, call);
    RequestNumbered(s, call);
    RequestPlaced(s, call);
    if !cloneable {
      RejectedPlaced(Request(s, call), call);
    }
  }

  lemma RemovalKeeps(s: State, id: nat, how: Settlement)
    requires Inv(s) && id in s.pending
    ensures Inv(s.(pending := s.pending - {id}, armed := s.armed - {id}, settled := Settle(s.settled, s.pending[id], how)))
  {
    Appended(s.settled, s.pending[id], how);
    var t := s.(pending := s.pending - {id}, armed := s.armed - {id}, settled := Settle(s.settled, s.pending[id], how));
    assert Numbered(t);
    assert forall i :: i in t.pending ==> i in s.pending && t.pending[i] == s.pending[i] != s.pending[id];
  }

  lemma DisposeKeeps(s: State)
    requires Inv(s)
    ensures Inv(Next(s, Dispose))
  {
    var t := Next(s, Dispose);
    assert forall i :: i in s.pending ==> s.pending[i] in s.pending.Values;
    assert forall i :: i in s.sent ==> s.sent[i] in s.sent.Values;
    forall c | c in s.pending.Values
      ensures c !in s.entered && (if c in s.unsent then c in s.settled && s.settled[c] == [Unsendable] else c !in s.settled)
    {
      var i :| i in s.pending && s.pending[i] == c;
      assert s.sent[i] == c;
    }
    forall c | c in t.settled
      ensures |t.settled[c]| == 1 || (|t.settled[c]| == 2 && c in s.unsent)
      ensures c in s.settled ==> t.settled[c][0] == s.settled[c][0]
    {}
  }

  lemma QuietKeeps(s: State, e: Event)
    requires Inv(s) && (e.Connect? || e.ConnectTimeout? || e.Call?)
    ensures Inv(Next(s, e))
  {
    if e.Call? && !Known(s, e.call) {
      assert forall i :: i in s.sent ==> s.sent[i] in s.sent.Values;
    }
  }

  lemma NextKeeps(s: State, e: Event)
    requires Inv(s)
    ensures Inv(Next(s, e))
  {
    match e
    case Connect => QuietKeeps(s, e);
    case ConnectTimeout => QuietKeeps(s, e);
    case Call(_) => QuietKeeps(s, e);
    case Proceed(call, cloneable) => ProceedKeeps(s, call, cloneable);
    case Response(id, ok) =>
      if s.port && id in s.pending {
        RemovalKeeps(s, id, if ok then Resolved else RejectedByHost);
      }
    case Timeout(id) =>
      if id in s.armed {
        RemovalKeeps(s, id, TimedOut);
      }
    case Dispose => DisposeKeeps(s);
  }

  lemma EveryStepKeeps()
    ensures Inv(INITIAL) && forall s, e :: Inv(s) ==> Inv(Next(s, e))
  {
    forall s, e | Inv(s)
      ensures Inv(Next(s, e))
    {
      NextKeeps(s, e);
    }
  }

  lemma RunInv(events: seq<Event>)
    ensures Inv(Run(events))
  {
    EveryStepKeeps();
    InvariantHolds(Next, Inv, events);
  }

  // ---- What every run guarantees ----

  /** Where a call stands. */
  predicate IsWaiting(s: State, call: CallId) { call in s.entered }
  predicate IsPending(s: State, call: CallId) { call in s.pending.Values }
  predicate IsSettled(s: State, call: CallId) { call in s.settled }

  /** The outcome of the call's promise. */
  function OutcomeOf(s: State, call: CallId): Settlement
    requires call in s.settled && |s.settled[call]| > 0
  {
    s.settled[call][0]
  }

  /** In every run every started call is waiting for the connection, pending or settled. No two of these hold together,
      except that a call whose message could not be posted is settled and stays pending. Its promise is settled once:
      only such a call can see a second settlement, which changes nothing. */
  lemma EveryCallHasAPlace(events: seq<Event>, call: CallId)
    ensures var s := Run(events);
            && (Known(s, call) <==> IsWaiting(s, call) || IsPending(s, call) || IsSettled(s, call))
            && !(IsWaiting(s, call) && IsPending(s, call)) && !(IsWaiting(s, call) && IsSettled(s, call))
            && (IsPending(s, call) && IsSettled(s, call) <==> IsPending(s, call) && call in s.unsent)
            && (IsSettled(s, call) ==> |s.settled[call]| == 1 || (|s.settled[call]| == 2 && OutcomeOf(s, call) == Unsendable))
  {
    RunInv(events);
    var s := Run(events);
    assert forall i :: i in s.sent ==> s.sent[i] in s.sent.Values;
    if call in s.pending.Values {
      var i :| i in s.pending && s.pending[i] == call;
      assert i in s.sent;
    }
    if call in s.sent.Values {
      var i :| i in s.sent && s.sent[i] == call;
      assert i in s.pending ==> s.pending[i] in s.pending.Values;
    }
  }

  /** No call is in two places. */
  ghost predicate OnePlaceEach(s: State) { forall c :: !(IsPending(s, c) && IsSettled(s, c)) }

  ghost predicate OutcomesKept(earlier: map<CallId, seq<Settlement>>, later: map<CallId, seq<Settlement>>) {
    forall c :: c in earlier && |earlier[c]| > 0 ==> c in later && |later[c]| > 0 && later[c][0] == earlier[c][0]
  }

  /** What a step keeps of the past. */
  ghost predicate Later(s: State, t: State) {
    && s.unsent <= t.unsent && (s.ready != Waiting ==> t.ready == s.ready)
    && OutcomesKept(s.settled, t.settled)
    && (s.disposed ==> t.disposed && t.sent == s.sent && t.serial == s.serial)
  }

  lemma SettleKeepsOutcomes(settled: map<CallId, seq<Settlement>>, call: CallId, how: Settlement)
    ensures OutcomesKept(settled, Settle(settled, call, how))
  {
    Appended(settled, call, how);
  }

  lemma SettleAllKeepsOutcomes(settled: map<CallId, seq<Settlement>>, calls: set<CallId>)
    ensures OutcomesKept(settled, SettleAll(settled, calls))
  {}

  lemma ProceedIsLater(s: State, call: CallId, cloneable: bool)
    ensures Later(s, Next(s, Proceed(call, cloneable)))
  {
    if call in s.entered && s.ready != Waiting {
      if s.ready == Lost {
        SettleKeepsOutcomes(s.settled, call, NotConnected);
      } else if s.ready == Shut || s.disposed {
        SettleKeepsOutcomes(s.settled, call, Closed);
      } else {
        SettleKeepsOutcomes(s.settled, call, Unsendable);
      }
    }
  }

  lemma QuietIsLater(s: State, e: Event)
    requires e.Connect? || e.ConnectTimeout? || e.Call?
    ensures Later(s, Next(s, e))
  {}

  lemma NextIsLater(s: State, e: Event)
    ensures Later(s, Next(s, e))
  {
    match e
    case Connect => QuietIsLater(s, e);
    case ConnectTimeout => QuietIsLater(s, e);
    case Call(_) => QuietIsLater(s, e);
    case Proceed(call, cloneable) => ProceedIsLater(s, call, cloneable);
    case Response(id, ok) =>
      if id in s.pending {
        SettleKeepsOutcomes(s.settled, s.pending[id], if ok then Resolved else RejectedByHost);
      }
    case Timeout(id) =>
      if id in s.sent {
        SettleKeepsOutcomes(s.settled, s.sent[id], TimedOut);
      }
    case Dispose => SettleAllKeepsOutcomes(s.settled, s.pending.Values);
  }

  lemma RestIsLater(before: seq<Event>, after: seq<Event>)
    ensures Later(Run(before), Run(before + after))
  {
    EveryStepKeeps();
    forall s, e | Inv(s)
      ensures Later(s, Next(s, e))
    {
      NextIsLater(s, e);
    }
    RestRelates(Next, Inv, Later, before, after);
  }

  /** The call is about to send its message. */
  predicate Posts(s: State, call: CallId) { call in s.entered && s.ready == Connected && !s.disposed }

  /** Every message that was sent could be cloned. */
  predicate AllCloned(events: seq<Event>) {
    events == [] ||
      (var before, e := events[..|events| - 1], events[|events| - 1];
       AllCloned(before) && (e.Proceed? && Posts(Run(before), e.call) ==> e.cloneable))
  }

  lemma NextUnsent(s: State, e: Event)
    ensures Next(s, e).unsent == if e.Proceed? && !e.cloneable && Posts(s, e.call) then s.unsent + {e.call} else s.unsent
  {}

  lemma {:induction false} UnsentIff(events: seq<Event>)
    ensures Run(events).unsent == {} <==> AllCloned(events)
  {
    if events != [] {
      var before, e := events[..|events| - 1], events[|events| - 1];
      UnsentIff(before);
      NextUnsent(Run(before), e);
      assert e.Proceed? ==> e.call in Run(before).unsent + {e.call};
    }
  }

  lemma UnsentAppears(s: State, e: Event)
    requires Inv(s) && s.unsent == {} && Next(s, e).unsent != {}
    ensures !OnePlaceEach(Next(s, e))
  {
    NextUnsent(s, e);
    var t := Rejected(Request(s, e.call), e.call);
    assert t.pending[s.serial + 1] == e.call;
    assert IsPending(t, e.call) && IsSettled(t, e.call) && Next(s, e) == t;
  }

  lemma OnePlaceWithoutUnsent(events: seq<Event>)
    requires Run(events).unsent == {}
    ensures OnePlaceEach(Run(events))
  {
    forall c
      ensures !(IsPending(Run(events), c) && IsSettled(Run(events), c))
    {
      EveryCallHasAPlace(events, c);
    }
  }

  lemma OnePlaceBefore(events: seq<Event>, n: nat)
    requires Run(events).unsent == {} && n <= |events|
    ensures OnePlaceEach(Run(events[..n]))
  {
    assert events[..n] + events[n..] == events;
    RestIsLater(events[..n], events[n..]);
    OnePlaceWithoutUnsent(events[..n]);
  }

  /** Some prefix of a run with an unsendable call has that call in two places. */
  lemma {:induction false} UnsentShows(events: seq<Event>) returns (n: nat)
    requires Run(events).unsent != {}
    ensures n <= |events| && !OnePlaceEach(Run(events[..n]))
  {
    assert events[..|events|] == events;
    var m := |events| - 1;
    var before := events[..m];
    assert before + [events[m]] == events;
    RunOneMore(before, events[m]);
    if Run(before).unsent != {} {
      n := UnsentShows(before);
      assert before[..n] == events[..n];
    } else {
      n := |events|;
      RunInv(before);
      UnsentAppears(Run(before), events[m]);
    }
  }

  /** Throughout a run every call is in exactly one place if and only if every message that was sent could be cloned. */
  lemma OnePlaceIffAllCloned(events: seq<Event>)
    ensures (forall n :: 0 <= n <= |events| ==> OnePlaceEach(Run(events[..n]))) <==> AllCloned(events)
  {
    UnsentIff(events);
    if Run(events).unsent != {} {
      var n := UnsentShows(events);
    } else {
      forall n | 0 <= n <= |events|
        ensures OnePlaceEach(Run(events[..n]))
      {
        OnePlaceBefore(events, n);
      }
    }
  }

  /** A panel that passes a function as a parameter: the promise is rejected, and the request stays pending. */
  lemma UnsendableStaysPending()
    ensures var s := Run([Connect, Call(7), Proceed(7, false)]);
            IsPending(s, 7) && IsSettled(s, 7) && s.settled[7] == [Unsendable] && s.armed == {1}
  {
    RunOneMore([], Connect);
    RunOneMore([Connect], Call(7));
    RunOneMore([Connect, Call(7)], Proceed(7, false));
    assert [] + [Connect] == [Connect] && [Connect] + [Call(7)] == [Connect, Call(7)];
    assert [Connect, Call(7)] + [Proceed(7, false)] == [Connect, Call(7), Proceed(7, false)];
    assert !Known(Run([Connect]), 7);
    var s := Run([Connect, Call(7), Proceed(7, false)]);
    assert s.pending[1] == 7;
    assert [] + [Unsendable] == [Unsendable];
  }

  /** A promise is settled at most once: whatever follows, the first outcome stays. */
  lemma OutcomeStays(before: seq<Event>, after: seq<Event>, call: CallId)
    requires IsSettled(Run(before), call) && |Run(before).settled[call]| > 0
    ensures var t := Run(before + after);
            IsSettled(t, call) && |t.settled[call]| > 0 && OutcomeOf(t, call) == OutcomeOf(Run(before), call)
  {
    RestIsLater(before, after);
  }

  /** The connection promise is settled once, too. */
  lemma ConnectionStays(before: seq<Event>, after: seq<Event>)
    requires Run(before).ready != Waiting
    ensures Run(before + after).ready == Run(before).ready
  {
    RestIsLater(before, after);
  }

  /** A response settles at most the one call that sent its id, with the outcome it carries unless that call was already
      rejected as unsendable; a response with an id that is unknown or no longer pending changes nothing. */
  lemma ResponseSettlesItsSender(events: seq<Event>, id: nat, ok: bool)
    ensures var s := Run(events);
            var t := Run(events + [Response(id, ok)]);
            if s.port && id in s.pending then
              && id in s.sent && t.pending == s.pending - {id}
              && IsSettled(t, s.sent[id]) && |t.settled[s.sent[id]]| > 0
              && OutcomeOf(t, s.sent[id]) == (if s.sent[id] in s.unsent then Unsendable else if ok then Resolved else RejectedByHost)
              && (forall c :: c != s.sent[id] ==> (c in t.settled <==> c in s.settled))
              && forall c :: c != s.sent[id] && c in s.settled ==> t.settled[c] == s.settled[c]
            else t == s
  {
    RunInv(events);
    RunOneMore(events, Response(id, ok));
    var s := Run(events);
    if s.port && id in s.pending {
      Appended(s.settled, s.pending[id], if ok then Resolved else RejectedByHost);
    }
  }

  /** A timer that fires settles the one call that sent its id, as timed out unless that call was already rejected as
      unsendable, and nothing is left of its request. */
  lemma TimeoutSettlesItsSender(events: seq<Event>, id: nat)
    requires id in Run(events).pending
    ensures var s, t := Run(events), Run(events + [Timeout(id)]);
            && id in s.sent && t.pending == s.pending - {id} && t.armed == s.armed - {id}
            && IsSettled(t, s.sent[id]) && |t.settled[s.sent[id]]| > 0
            && OutcomeOf(t, s.sent[id]) == (if s.sent[id] in s.unsent then Unsendable else TimedOut)
            && (forall c :: c != s.sent[id] ==> (c in t.settled <==> c in s.settled))
            && forall c :: c != s.sent[id] && c in s.settled ==> t.settled[c] == s.settled[c]
  {
    RunInv(events);
    RunOneMore(events, Timeout(id));
    Appended(Run(events).settled, Run(events).sent[id], TimedOut);
  }

  /** A waiting call goes on when the connection promise is settled: it is refused as not connected or as closed, or sent
      under a number of its own; if its message cannot be cloned, it is rejected as unsendable. */
  lemma WaitingCallGoesOn(events: seq<Event>, call: CallId, cloneable: bool)
    requires IsWaiting(Run(events), call) && Run(events).ready != Waiting
    ensures var s, t := Run(events), Run(events + [Proceed(call, cloneable)]);
            && !IsWaiting(t, call)
            && (s.ready == Lost ==> t.sent == s.sent && t.settled == s.settled[call := [NotConnected]])
            && (s.ready == Shut || (s.ready == Connected && s.disposed) ==> t.sent == s.sent && t.settled == s.settled[call := [Closed]])
            && (s.ready == Connected && !s.disposed ==>
                  && t.serial == s.serial + 1 && t.serial !in s.sent && t.sent == s.sent[t.serial := call]
                  && t.pending == s.pending[t.serial := call]
                  && t.settled == if cloneable then s.settled else s.settled[call := [Unsendable]])
  {
    RunInv(events);
    RunOneMore(events, Proceed(call, cloneable));
    forall how: Settlement
      ensures [] + [how] == [how]
    {}
  }

  /** A timer of a request that was answered never fires again. */
  lemma LateTimerChangesNothing(events: seq<Event>, id: nat)
    requires id !in Run(events).pending
    ensures Run(events + [Timeout(id)]) == Run(events)
  {
    RunInv(events);
    RunOneMore(events, Timeout(id));
  }

  /** Disposal settles every pending call that was not settled already. */
  lemma DisposeSettlesAll(events: seq<Event>, call: CallId)
    requires IsPending(Run(events), call)
    ensures var s, t := Run(events), Run(events + [Dispose]);
            && t.disposed && t.pending == map[]
            && IsSettled(t, call) && |t.settled[call]| > 0
            && OutcomeOf(t, call) == if call in s.unsent then Unsendable else Closed
  {
    RunInv(events);
    var s := Run(events);
    RunOneMore(events, Dispose);
    var i :| i in s.pending && s.pending[i] == call;
    assert call in s.pending.Values;
  }

  /** After disposal no request is pending and none is ever sent again, whatever happens. */
  lemma NothingAfterDispose(before: seq<Event>, after: seq<Event>)
    ensures var s := Run(before + [Dispose] + after);
            && s.disposed && s.pending == map[] && s.armed == {}
            && s.sent == Run(before).sent && s.serial == Run(before).serial
  {
    RunOneMore(before, Dispose);
    RestIsLater(before + [Dispose], after);
    RunInv(before + [Dispose] + after);
  }

  // ---- The client object ----

  /** The closures over `port`, `serial`, `disposed` and `pending`, with the promises' outcomes recorded. */
  class Client {
    var port: bool
    var serial: nat
    var disposed: bool
    var ready: Readiness
    var connectTimer: bool
    var pending: map<nat, CallId>
    var armed: set<nat>
    ghost var entered: set<CallId>
    ghost var sent: map<nat, CallId>
    ghost var unsent: set<CallId>
    ghost var settled: map<CallId, seq<Settlement>>

    ghost function Now(): State
      reads this
    {
      State(port, serial, disposed, ready, connectTimer, pending, armed, entered, sent, unsent, settled)
    }

    constructor ()
      ensures Now() == INITIAL
    {
      port, serial, disposed, ready, connectTimer := false, 0, false, Waiting, true;
      pending, armed, entered, sent, unsent, settled := map[], {}, {}, map[], {}, map[];
    }

    method OnConnect()
      modifies this
      ensures Now() == Next(old(Now()), Connect)
    {
      if disposed || port {
        return;
      }
      port := true;
      connectTimer := false;
      if ready == Waiting {
        ready := Connected;
      }
    }

    /** The timer of the connection. */
    method OnConnectTimeout()
      requires connectTimer
      modifies this
      ensures Now() == Next(old(Now()), ConnectTimeout)
    {
      connectTimer := false;
      if ready == Waiting {
        ready := Lost;
      }
    }

    /** The part of a call after the connection is known; `call` must be waiting. Posting a message that cannot be cloned
        throws, after the timer is armed and the entry made. */
    method Proceed(call: CallId, cloneable: bool)
      requires call in entered && ready != Waiting
      modifies this
      ensures Now() == Next(old(Now()), Event.Proceed(call, cloneable))
    {
      entered := entered - {call};
      if ready == Lost {
        settled := Settle(settled, call, NotConnected);
        return;
      }
      if ready == Shut || disposed {
        settled := Settle(settled, call, Closed);
        return;
      }
      serial := serial + 1;
      var id := serial;
      armed := armed + {id};
      pending := pending[id := call];
      sent := sent[id := call];
      assert Now() == Request(old(Now()), call);
      if !cloneable {
        unsent := unsent + {call};
        settled := Settle(settled, call, Unsendable);
      }
    }

    method OnMessage(id: nat, ok: bool)
      requires port
      modifies this
      ensures Now() == Next(old(Now()), Response(id, ok))
    {
      if id !in pending {
        return;
      }
      var request := pending[id];
      pending := pending - {id};
      armed := armed - {id};
      settled := Settle(settled, request, if ok then Resolved else RejectedByHost);
    }

    /** The timer callback holds on to the call it was made for, and does not look whether it is still pending. */
    method OnTimeout(id: nat, request: CallId)
      requires id in armed && id in sent && sent[id] == request
      modifies this
      ensures Now() == Next(old(Now()), Timeout(id))
    {
      armed := armed - {id};
      pending := pending - {id};
      settled := Settle(settled, request, TimedOut);
    }

    /** One turn of the loop over the pending requests. */
    method CloseOne(left: map<nat, CallId>, ghost s0: State, ghost done: set<CallId>) returns (rest: map<nat, CallId>, ghost more: set<CallId>)
      requires left != map[] && Closing(s0, Now(), left, done)
      modifies this`armed, this`settled
      ensures |rest| < |left| && Closing(s0, Now(), rest, more)
    {
      var id: nat :| id in left;
      ClosingNext(s0, Now(), left, done, id);
      armed := armed - {id};
      settled := Settle(settled, left[id], Closed);
      more := done + {left[id]};
      rest := left - {id};
      assert |left| == |rest| + 1;
    }

    /** Clears the timer of every pending request and rejects it. */
    method CloseAll()
      requires Injective(pending) && armed == pending.Keys
      modifies this`armed, this`settled
      ensures Now() == old(Now()).(armed := {}, settled := SettleAll(old(settled), pending.Values))
    {
      ghost var s0 := Now();
      var left := pending;
      ghost var done: set<CallId> := {};
      ClosingStart(s0);
      while left != map[]
        invariant Closing(s0, Now(), left, done)
        decreases |left|
      {
        left, done := CloseOne(left, s0, done);
      }
      ClosingDone(s0, Now(), done);
    }

    method DisposeClient()
      requires Inv(Now())
      modifies this
      ensures Now() == Next(old(Now()), Dispose)
    {
      disposed := true;
      connectTimer := false;
      if ready == Waiting {
        ready := Shut;
      }
      CloseAll();
      pending := map[];
    }
  }

  lemma ClosingStart(s: State)
    requires Injective(s.pending) && s.armed == s.pending.Keys
    ensures Closing(s, s, s.pending, {})
  {
    SettleNone(s.settled);
  }

  lemma ClosingDone(s0: State, s: State, done: set<CallId>)
    requires Closing(s0, s, map[], done)
    ensures s == s0.(armed := {}, settled := SettleAll(s0.settled, s0.pending.Values))
  {
    assert done == s0.pending.Values;
  }

  /** The loop of the disposal has `left` still to close and has closed the calls in `done`. */
  ghost predicate Closing(s0: State, s: State, left: map<nat, CallId>, done: set<CallId>) {
    && Injective(s0.pending) && s0.armed == s0.pending.Keys
    && left.Keys <= s0.pending.Keys && (forall i :: i in left ==> left[i] == s0.pending[i])
    && (forall i :: i in s0.pending ==> (s0.pending[i] in done <==> i !in left))
    && done <= s0.pending.Values
    && s == s0.(armed := left.Keys, settled := SettleAll(s0.settled, done))
  }

  lemma ClosingNext(s0: State, s: State, left: map<nat, CallId>, done: set<CallId>, id: nat)
    requires Closing(s0, s, left, done) && id in left
    ensures Closing(s0, s.(armed := s.armed - {id}, settled := Settle(s.settled, left[id], Closed)), left - {id}, done + {left[id]})
  {
    assert left[id] == s0.pending[id] && left[id] in s0.pending.Values && left[id] !in done;
    SettleOneMore(s0.settled, done, left[id]);
    assert left.Keys - {id} == (left - {id}).Keys;
  }

  lemma SettleOneMore(settled: map<CallId, seq<Settlement>>, done: set<CallId>, call: CallId)
    requires call !in done
    ensures Settle(SettleAll(settled, done), call, Closed) == SettleAll(settled, done + {call})
  {
    var a, b := Settle(SettleAll(settled, done), call, Closed), SettleAll(settled, done + {call});
    assert a.Keys == b.Keys;
    forall c | c in a
      ensures a[c] == b[c]
    {
      if c == call && c in settled {
        assert settled[c] + [] + [Closed] == settled[c] + [Closed];
      } else if c == call {
        assert [] + [Closed] == [Closed];
      }
    }
  }

  lemma SettleNone(settled: map<CallId, seq<Settlement>>)
    ensures SettleAll(settled, {}) == settled
  {
    var a := SettleAll(settled, {});
    assert a.Keys == settled.Keys;
    forall c | c in a
      ensures a[c] == settled[c]
    {
      assert settled[c] + [] == settled[c];
    }
  }
}
