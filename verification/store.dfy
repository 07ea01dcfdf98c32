/** The cache store of cache.go (`request`) as a sequential state machine.
    Each step is atomic; locks are not modelled. The synchronous path of a
    first request is split into `Arrive` (the entry is inserted empty) and
    `FinishPopulate` (the handler's result is stored or rolled back), and the
    refresh goroutine becomes a recorded `Refresh` that `RunRefresh` later
    executes. Handlers are an oracle: every step that calls one is given the
    call's result. Clocks are integer parameters. */
module Store {
  import opened Base
  import opened Segments
  import opened Trie

  type Key = Bytes

  /** The cache key of a request's segments. */
  function KeyOf(segs: seq<Bytes>): Key
  {
    ToCanonicalPath(segs)
  }

  /** A `cacheEntry`. A nil `value` slice is `None`. `wedged` records that a
      populating call panicked while holding the entry's write lock, which is
      then never released. */
  datatype Entry = Entry(value: Option<Bytes>, expiry: int, wedged: bool)

  /** What one handler call returns: an error, or a slice that may be nil. */
  datatype HandlerResult = Failed(message: Bytes) | Returned(body: Option<Bytes>)

  /** A refresh goroutine started by a stale read and not yet run: the entry
      it holds, and the route and segments it calls the handler with. */
  datatype Refresh = Refresh(key: Key, route: Route, segs: seq<Bytes>)

  /** The map of entries, the keys whose first population is in flight, the
      refreshes not yet run, and the log of handler invocations by key. */
  datatype State = State(
    entries: map<Key, Entry>,
    populating: set<Key>,
    pending: seq<Refresh>,
    calls: seq<Key>)

  datatype Error = HandlerError(message: Bytes) | NoValueYet

  /** How one `request` ends: a body, an error, a panic (calling a missing
      handler), or waiting forever on a wedged entry's lock. */
  datatype Outcome = Served(body: Bytes) | Failure(error: Error) | Panicked | Blocked

  /** The first step of `request`: insert an empty entry for an absent key
      (the caller must then populate it), or read an existing entry. */
  datatype Arrival = MustPopulate(state: State) | Answered(state: State, outcome: Outcome)

  datatype RefreshOutcome = Refreshed | RefreshFailed | Crashed

  const EmptyStore: State := State(map[], {}, [], [])

  /** The states reachable from `EmptyStore`: a populating key has an empty,
      unwedged entry, and a pending refresh holds an entry that exists, is
      not being populated and is not wedged. */
  ghost predicate Inv(s: State)
  {
    && (forall k :: k in s.populating ==> k in s.entries && s.entries[k].value.None? && !s.entries[k].wedged)
    && (forall i :: 0 <= i < |s.pending| ==>
          var k := s.pending[i].key;
          k in s.entries && k !in s.populating && !s.entries[k].wedged)
  }

  /** Lines 154-174 of `request` on an entry that exists: an error while the
      value is nil, else the value, with a refresh scheduled exactly when
      the expiry lies strictly before `now`. */
  function Read(s: State, key: Key, route: Route, segs: seq<Bytes>, now: int): (res: (State, Outcome))
    requires key in s.entries
    ensures res.0.entries == s.entries && res.0.populating == s.populating && res.0.calls == s.calls
    ensures s.entries[key].wedged ==> res == (s, Blocked)
    ensures !s.entries[key].wedged && s.entries[key].value.None? ==> res == (s, Failure(NoValueYet))
    ensures !s.entries[key].wedged && s.entries[key].value.Some? ==>
              && res.1 == Served(s.entries[key].value.value)
              && res.0.pending == if s.entries[key].expiry < now then s.pending + [Refresh(key, route, segs)] else s.pending
  {
    var e := s.entries[key];
    if e.wedged then (s, Blocked)
    else if e.value.None? then (s, Failure(NoValueYet))
    else if e.expiry < now then (s.(pending := s.pending + [Refresh(key, route, segs)]), Served(e.value.value))
    else (s, Served(e.value.value))
  }

  /** Lines 134-138 and 151-152 of `request`, and for an existing key the
      read that follows. The handler is never called here. */
  function Arrive(s: State, route: Route, segs: seq<Bytes>, now: int): (a: Arrival)
    ensures a.state.calls == s.calls
    ensures a.MustPopulate? <==> KeyOf(segs) !in s.entries
    ensures a.MustPopulate? ==>
              && a.state.entries == s.entries[KeyOf(segs) := Entry(None, 0, false)]
              && a.state.populating == s.populating + {KeyOf(segs)}
              && a.state.pending == s.pending
    ensures a.Answered? ==> a.state.entries == s.entries && a.state.populating == s.populating
    ensures KeyOf(segs) in s.entries ==>
              var (s', o) := Read(s, KeyOf(segs), route, segs, now);
              a == Answered(s', o)
  {
    var key := KeyOf(segs);
    if key !in s.entries then
      MustPopulate(s.(entries := s.entries[key := Entry(None, 0, false)], populating := s.populating + {key}))
    else
      var (s', o) := Read(s, key, route, segs, now);
      Answered(s', o)
  }

  /** Lines 139-150 of `request` and the read after them: the handler result
      is stored with expiry `tPop + ttl`, or the entry is deleted on error; a
      missing handler panics with the entry's write lock held. */
  function FinishPopulate(s: State, route: Route, segs: seq<Bytes>, result: HandlerResult, tPop: int, tRead: int)
    : (res: (State, Outcome))
    requires Inv(s) && KeyOf(segs) in s.populating
    ensures KeyOf(segs) !in res.0.populating && res.0.populating == s.populating - {KeyOf(segs)}
    ensures route.handler.None? ==>
              && res.1 == Panicked && res.0.calls == s.calls
              && res.0.entries == s.entries[KeyOf(segs) := Entry(None, 0, true)]
    ensures route.handler.Some? ==> res.0.calls == s.calls + [KeyOf(segs)]
    ensures route.handler.Some? && result.Failed? ==>
              && res.1 == Failure(HandlerError(result.message))
              && res.0.entries == s.entries - {KeyOf(segs)}
              && res.0.pending == s.pending
    ensures route.handler.Some? && result.Returned? ==>
              && res.0.entries == s.entries[KeyOf(segs) := Entry(result.body, tPop + route.ttl, false)]
              && (result.body.None? ==> res.1 == Failure(NoValueYet) && res.0.pending == s.pending)
              && (result.body.Some? ==> res.1 == Served(result.body.value))
              && (result.body.Some? && tPop + route.ttl < tRead ==> res.0.pending == s.pending + [Refresh(KeyOf(segs), route, segs)])
              && (result.body.Some? && tRead <= tPop + route.ttl ==> res.0.pending == s.pending)
  {
    var key := KeyOf(segs);
    var s1 := s.(populating := s.populating - {key});
    match route.handler
    case None => (s1.(entries := s.entries[key := Entry(None, 0, true)]), Panicked)
    case Some(_) =>
      var s2 := s1.(calls := s.calls + [key]);
      match result
      case Failed(m) => (s2.(entries := s.entries - {key}), Failure(HandlerError(m)))
      case Returned(v) => Read(s2.(entries := s.entries[key := Entry(v, tPop + route.ttl, false)]), key, route, segs, tRead)
  }

  /** `request` run to completion without interleaving. `result` is what the
      handler returns if it is called, `tPop` the clock read after it
      returns (line 149) and `tRead` the clock read by the staleness check
      (line 162). */
  function Request(s: State, route: Route, segs: seq<Bytes>, result: HandlerResult, tPop: int, tRead: int)
    : (res: (State, Outcome))
    requires Inv(s)
    ensures KeyOf(segs) in s.entries ==> res.0.calls == s.calls && res.0.entries == s.entries
    ensures KeyOf(segs) in s.entries ==> res == Read(s, KeyOf(segs), route, segs, tRead)
    ensures KeyOf(segs) !in s.entries && route.handler.Some? ==> res.0.calls == s.calls + [KeyOf(segs)]
    ensures KeyOf(segs) !in s.entries && route.handler.Some? && result.Failed? ==>
              res == (s.(calls := s.calls + [KeyOf(segs)]), Failure(HandlerError(result.message)))
    ensures KeyOf(segs) !in s.entries && route.handler.Some? && result.Returned? ==>
              res.0.entries == s.entries[KeyOf(segs) := Entry(result.body, tPop + route.ttl, false)]
    ensures res.0.populating == s.populating
  {
    match Arrive(s, route, segs, tRead)
    case Answered(s', o) => (s', o)
    case MustPopulate(s') =>
      assert Inv(s') by {
        forall i | 0 <= i < |s'.pending|
          ensures s'.pending[i].key != KeyOf(segs)
        {
          assert s.pending[i].key in s.entries;
        }
      }
      var (s'', o) := FinishPopulate(s', route, segs, result, tPop, tRead);
      assert s''.entries.Keys == s'.entries.Keys || s''.entries == s.entries;
      (s'', o)
  }

  /** Removes element `i` of a sequence. */
  function RemoveAt<T>(q: seq<T>, i: nat): (r: seq<T>)
    requires i < |q|
    ensures |r| == |q| - 1
    ensures forall j :: 0 <= j < i ==> r[j] == q[j]
    ensures forall j :: i <= j < |r| ==> r[j] == q[j + 1]
  {
    q[..i] + q[i + 1..]
  }

  /** The refresh goroutine (lines 163-172): on success the value and the
      expiry are both replaced; on error nothing changes; a missing handler
      panics outside any recovery and ends the process. */
  function RunRefresh(s: State, i: nat, result: HandlerResult, now: int): (res: (State, RefreshOutcome))
    requires Inv(s) && i < |s.pending|
    ensures res.0.populating == s.populating && res.0.entries.Keys == s.entries.Keys
    ensures res.0.pending == RemoveAt(s.pending, i)
    ensures var p := s.pending[i];
            && (p.route.handler.None? ==> res == (s.(pending := RemoveAt(s.pending, i)), Crashed))
            && (p.route.handler.Some? ==> res.0.calls == s.calls + [p.key])
            && (p.route.handler.Some? && result.Failed? ==> res.1 == RefreshFailed && res.0.entries == s.entries)
            && (p.route.handler.Some? && result.Returned? ==>
                  res.1 == Refreshed && res.0.entries == s.entries[p.key := Entry(result.body, now + p.route.ttl, false)])
  {
    var p := s.pending[i];
    var s1 := s.(pending := RemoveAt(s.pending, i));
    match p.route.handler
    case None => (s1, Crashed)
    case Some(_) =>
      var s2 := s1.(calls := s.calls + [p.key]);
      match result
      case Failed(_) => (s2, RefreshFailed)
      case Returned(v) => (s2.(entries := s.entries[p.key := Entry(v, now + p.route.ttl, false)]), Refreshed)
  }

  // ---------------------------------------------------------------------
  // The state machine as a whole

  /** One atomic step: a request arrives, a first population finishes, or a
      pending refresh runs. */
  datatype Action =
    | RequestArrives(route: Route, segs: seq<Bytes>, now: int)
    | PopulateFinishes(route: Route, segs: seq<Bytes>, result: HandlerResult, tPop: int, tRead: int)
    | RefreshRuns(index: nat, result: HandlerResult, now: int)

  predicate Enabled(s: State, a: Action)
  {
    match a
    case RequestArrives(_, _, _) => true
    case PopulateFinishes(_, segs, _, _, _) => KeyOf(segs) in s.populating
    case RefreshRuns(i, _, _) => i < |s.pending|
  }

  function Next(s: State, a: Action): State
    requires Inv(s) && Enabled(s, a)
  {
    match a
    case RequestArrives(route, segs, now) => Arrive(s, route, segs, now).state
    case PopulateFinishes(route, segs, result, tPop, tRead) => FinishPopulate(s, route, segs, result, tPop, tRead).0
    case RefreshRuns(i, result, now) => RunRefresh(s, i, result, now).0
  }

  lemma EmptyStoreInv()
    ensures Inv(EmptyStore)
  {
  }

  /** Every step keeps the invariant. */
  lemma NextInv(s: State, a: Action)
    requires Inv(s) && Enabled(s, a)
    ensures Inv(Next(s, a))
  {
    match a
    case RequestArrives(route, segs, now) => ArriveInv(s, route, segs, now);
    case PopulateFinishes(route, segs, result, tPop, tRead) => FinishPopulateInv(s, route, segs, result, tPop, tRead);
    case RefreshRuns(i, result, now) => RunRefreshInv(s, i, result, now);
  }

  lemma ArriveInv(s: State, route: Route, segs: seq<Bytes>, now: int)
    requires Inv(s)
    ensures Inv(Arrive(s, route, segs, now).state)
  {
    var s' := Arrive(s, route, segs, now).state;
    var key := KeyOf(segs);
    if key !in s.entries {
      forall i | 0 <= i < |s'.pending|
        ensures s'.pending[i].key != key
      {
        assert s.pending[i].key in s.entries;
      }
    }
  }

  lemma FinishPopulateInv(s: State, route: Route, segs: seq<Bytes>, result: HandlerResult, tPop: int, tRead: int)
    requires Inv(s) && KeyOf(segs) in s.populating
    ensures Inv(FinishPopulate(s, route, segs, result, tPop, tRead).0)
  {
    var key := KeyOf(segs);
    forall i | 0 <= i < |s.pending|
      ensures s.pending[i].key != key
    {
    }
  }

  lemma RunRefreshInv(s: State, i: nat, result: HandlerResult, now: int)
    requires Inv(s) && i < |s.pending|
    ensures Inv(RunRefresh(s, i, result, now).0)
  {
    var s' := RunRefresh(s, i, result, now).0;
    forall j | 0 <= j < |s'.pending|
      ensures s'.pending[j] in s.pending
    {
      if j < i {
        assert s'.pending[j] == s.pending[j];
      } else {
        assert s'.pending[j] == s.pending[j + 1];
      }
    }
  }

  /** Keys leave the map only when a first population fails. */
  lemma OnlyFailedPopulateRemoves(s: State, a: Action)
    requires Inv(s) && Enabled(s, a)
    ensures forall k :: k in s.entries && k !in Next(s, a).entries ==>
              && a.PopulateFinishes? && k == KeyOf(a.segs)
              && a.route.handler.Some? && a.result.Failed?
  {
  }

  /** Runs a sequence of actions; `None` as soon as one is not enabled. */
  function Run(s: State, acts: seq<Action>): (r: Option<State>)
    requires Inv(s)
    ensures r.Some? ==> Inv(r.value)
    decreases |acts|
  {
    if |acts| == 0 then Some(s)
    else if !Enabled(s, acts[0]) then None
    else
      NextInv(s, acts[0]);
      Run(Next(s, acts[0]), acts[1..])
  }

  /** A key whose entry holds a nil value, with no population in flight and
      no refresh pending: nothing will ever store a value for it again. */
  ghost predicate Stuck(s: State, key: Key)
  {
    && key in s.entries
    && s.entries[key].value.None?
    && key !in s.populating
    && forall i :: 0 <= i < |s.pending| ==> s.pending[i].key != key
  }

  lemma StuckStep(s: State, a: Action, key: Key)
    requires Inv(s) && Enabled(s, a) && Stuck(s, key)
    ensures Stuck(Next(s, a), key)
    ensures Next(s, a).entries[key] == s.entries[key]
  {
    var s' := Next(s, a);
    match a
    case RequestArrives(route, segs, now) =>
      if KeyOf(segs) in s.entries {
        assert s'.pending == s.pending || s'.pending == s.pending + [Refresh(KeyOf(segs), route, segs)];
        if KeyOf(segs) == key {
          assert s'.pending == s.pending;
        }
      }
    case PopulateFinishes(route, segs, result, tPop, tRead) =>
      assert KeyOf(segs) != key;
      assert s'.pending == s.pending || s'.pending == s.pending + [Refresh(KeyOf(segs), route, segs)];
    case RefreshRuns(i, result, now) =>
      assert s.pending[i].key != key;
      forall j | 0 <= j < |s'.pending|
        ensures s'.pending[j].key != key
      {
        assert s'.pending[j] == s.pending[j] || s'.pending[j] == s.pending[j + 1];
      }
  }

  /** A nil value is permanent: once a key is stuck, every sequence of steps
      leaves its entry unchanged, so every later request for it fails (or
      blocks, if the entry is wedged) without calling the handler. */
  lemma {:induction false} StuckIsPermanent(s: State, acts: seq<Action>, key: Key)
    requires Inv(s) && Stuck(s, key)
    requires Run(s, acts).Some?
    ensures Stuck(Run(s, acts).value, key)
    ensures Run(s, acts).value.entries[key] == s.entries[key]
    decreases |acts|
  {
    if |acts| > 0 {
      NextInv(s, acts[0]);
      StuckStep(s, acts[0], key);
      StuckIsPermanent(Next(s, acts[0]), acts[1..], key);
    }
  }

  /** A request for a stuck key never reaches the handler and never serves a
      body. */
  lemma StuckNeverServes(s: State, route: Route, segs: seq<Bytes>, result: HandlerResult, tPop: int, tRead: int)
    requires Inv(s) && Stuck(s, KeyOf(segs))
    ensures Request(s, route, segs, result, tPop, tRead).0 == s
    ensures Request(s, route, segs, result, tPop, tRead).1 in {Blocked, Failure(NoValueYet)}
  {
  }

  /** A handler that returns a nil slice with a nil error on the first
      request leaves the key stuck. */
  lemma NilFirstResultSticks(s: State, route: Route, segs: seq<Bytes>, tPop: int, tRead: int)
    requires Inv(s) && KeyOf(segs) !in s.entries && route.handler.Some?
    ensures Stuck(Request(s, route, segs, Returned(None), tPop, tRead).0, KeyOf(segs))
    ensures Request(s, route, segs, Returned(None), tPop, tRead).1 == Failure(NoValueYet)
  {
    var key := KeyOf(segs);
    forall i | 0 <= i < |s.pending|
      ensures s.pending[i].key != key
    {
      assert s.pending[i].key in s.entries;
    }
  }

  /** While a first population is in flight, another request for the same key
      neither starts a second population nor calls the handler, and gets the
      try-again error. */
  lemma SinglePopulation(s: State, route: Route, segs: seq<Bytes>, now: int)
    requires Inv(s) && KeyOf(segs) in s.populating
    ensures Arrive(s, route, segs, now) == Answered(s, Failure(NoValueYet))
  {
  }

  /** After a failed first population the entry is gone, so the next request
      for the key calls the handler again. */
  lemma FailedPopulateIsRetried(s: State, route: Route, segs: seq<Bytes>, m: Bytes,
                                result: HandlerResult, t1: int, t2: int, t3: int, t4: int)
    requires Inv(s) && KeyOf(segs) !in s.entries && route.handler.Some?
    ensures var s1 := Request(s, route, segs, Failed(m), t1, t2).0;
            && KeyOf(segs) !in s1.entries
            && Request(s1, route, segs, result, t3, t4).0.calls == s.calls + [KeyOf(segs), KeyOf(segs)]
  {
    var s1 := Request(s, route, segs, Failed(m), t1, t2).0;
    assert Inv(s1);
  }

  /** Stale-while-revalidate: a stale value is served at once and a refresh
      is queued; once that refresh succeeds, a request within the new TTL
      gets the refreshed value and queues nothing. */
  lemma StaleServedThenRefreshed(s: State, route: Route, segs: seq<Bytes>, result: HandlerResult,
                                 now: int, newBody: Bytes, tRefresh: int, later: int)
    requires Inv(s) && KeyOf(segs) in s.entries && route.handler.Some?
    requires s.entries[KeyOf(segs)].value.Some? && !s.entries[KeyOf(segs)].wedged
    requires s.entries[KeyOf(segs)].expiry < now
    requires later <= tRefresh + route.ttl
    ensures var (s1, o1) := Request(s, route, segs, result, now, now);
            && o1 == Served(s.entries[KeyOf(segs)].value.value)
            && s1.calls == s.calls
            && |s1.pending| == |s.pending| + 1
            && var s2 := RunRefresh(s1, |s.pending|, Returned(Some(newBody)), tRefresh).0;
               && s2.entries[KeyOf(segs)] == Entry(Some(newBody), tRefresh + route.ttl, false)
               && Request(s2, route, segs, result, later, later) == (s2, Served(newBody))
  {
    var key := KeyOf(segs);
    var (s1, o1) := Request(s, route, segs, result, now, now);
    assert s1.pending == s.pending + [Refresh(key, route, segs)];
    assert Inv(s1);
    var s2 := RunRefresh(s1, |s.pending|, Returned(Some(newBody)), tRefresh).0;
    assert Inv(s2) by {
      NextInv(s1, RefreshRuns(|s.pending|, Returned(Some(newBody)), tRefresh));
    }
  }

  /** With the zero TTL every route has, a read at any instant after the
      populate instant finds the value stale, so the first request itself
      queues a refresh whenever the two clock readings differ. */
  lemma ZeroTtlRefreshesAtOnce(s: State, route: Route, segs: seq<Bytes>, body: Bytes, tPop: int, tRead: int)
    requires Inv(s) && Valid(route) && KeyOf(segs) !in s.entries && route.handler.Some?
    requires tPop < tRead
    ensures var (s1, o) := Request(s, route, segs, Returned(Some(body)), tPop, tRead);
            && o == Served(body)
            && s1.entries[KeyOf(segs)] == Entry(Some(body), tPop, false)
            && s1.pending == s.pending + [Refresh(KeyOf(segs), route, segs)]
  {
  }
}
