/** The registry of database thread pools: a double-checked lookup in a map under a read/write lock. */
module PoolRegistry {
  import opened Prelude

  /** Where a thread is inside `get_database_threadpool`. */
  datatype Phase =
    | Idle
    | Reading(url: string)   // holds the read lock of `try_get_database_threadpool`
    | Missed(url: string)    // holds nothing, wants the write lock
    | Writing(url: string)   // holds the write lock, has to check again
    | Creating(url: string)  // holds the write lock, builds and connects a pool

  datatype Pool = Pool(id: nat)
  datatype Created = Created(url: string, pool: Pool)
  datatype Return = Return(thread: nat, url: string, result: Option<Pool>)

  /** `pools` is the locked map; `created` and `outcomes` record what has happened. */
  datatype State = State(
    pools: map<string, Pool>,
    phases: map<nat, Phase>,
    readers: set<nat>,
    writer: Option<nat>,
    built: nat,
    created: seq<Created>,
    outcomes: seq<Return>)

  datatype Step =
    | BeginRead(url: string)
    | EndRead
    | AcquireWrite
    | CheckAgain
    | Create(works: bool)

  const START := State(map[], map[], {}, None, 0, [], [])

  function PhaseOf(s: State, t: nat): Phase {
    if t in s.phases then s.phases[t] else Idle
  }

  function Goto(s: State, t: nat, phase: Phase): State {
    s.(phases := s.phases[t := phase])
  }

  /** The call returns and the write lock is dropped. */
  function Leave(s: State, t: nat, url: string, result: Option<Pool>): State {
    Goto(s, t, Idle).(writer := None, outcomes := s.outcomes + [Return(t, url, result)])
  }

  predicate Enabled(s: State, t: nat, step: Step) {
    match step
    case BeginRead(_) => PhaseOf(s, t).Idle? && s.writer.None?
    case EndRead => PhaseOf(s, t).Reading?
    case AcquireWrite => PhaseOf(s, t).Missed? && s.readers == {} && s.writer.None?
    case CheckAgain => PhaseOf(s, t).Writing?
    case Create(_) => PhaseOf(s, t).Creating?
  }

  /** One step of one thread. */
  function Do(s: State, t: nat, step: Step): State
    requires Enabled(s, t, step)
  {
    var phase := PhaseOf(s, t);
    match step
    case BeginRead(url) => Goto(s, t, Reading(url)).(readers := s.readers + {t})
    case EndRead =>
      var released := s.(readers := s.readers - {t});
      if phase.url in s.pools then
        Goto(released, t, Idle).(outcomes := s.outcomes + [Return(t, phase.url, Some(s.pools[phase.url]))])
      else Goto(released, t, Missed(phase.url))
    case AcquireWrite => Goto(s, t, Writing(phase.url)).(writer := Some(t))
    case CheckAgain =>
      if phase.url in s.pools then Leave(s, t, phase.url, Some(s.pools[phase.url]))
      else Goto(s, t, Creating(phase.url))
    case Create(works) =>
      var pool := Pool(s.built);
      var tried := s.(built := s.built + 1);
      if works then
        Leave(tried.(pools := s.pools[phase.url := pool], created := s.created + [Created(phase.url, pool)]),
              t, phase.url, Some(pool))
      else Leave(tried, t, phase.url, None)
  }

  datatype Event = Event(thread: nat, step: Step)

  /** The events can happen in this order from `s`, and lead to the result. */
  function Play(s: State, events: seq<Event>): Option<State>
    decreases |events|
  {
    if events == [] then Some(s)
    else if !Enabled(s, events[0].thread, events[0].step) then None
    else Play(Do(s, events[0].thread, events[0].step), events[1..])
  }

  // ---------------------------------------------------------------- invariants

  /** The lock: any number of readers or one writer, and the phases say who. */
  ghost predicate LockOk(s: State) {
    && (forall t: nat :: t in s.readers <==> PhaseOf(s, t).Reading?)
    && (forall t: nat :: s.writer == Some(t) <==> PhaseOf(s, t).Writing? || PhaseOf(s, t).Creating?)
    && (s.writer.Some? ==> s.readers == {})
  }

  /** The map holds exactly the created pools, one to a URL. */
  ghost predicate MapOk(s: State) {
    && (forall c :: c in s.created ==> c.url in s.pools && s.pools[c.url] == c.pool)
    && (forall url :: url in s.pools ==> Created(url, s.pools[url]) in s.created)
    && (forall i, j :: 0 <= i < j < |s.created| ==> s.created[i].url != s.created[j].url)
  }

  /** No pool is registered for two URLs. */
  ghost predicate IdsOk(s: State) {
    && (forall c :: c in s.created ==> c.pool.id < s.built)
    && (forall i, j :: 0 <= i < j < |s.created| ==> s.created[i].pool != s.created[j].pool)
  }

  ghost predicate ReturnsOk(s: State) {
    forall r :: r in s.outcomes && r.result.Some? ==> r.url in s.pools && s.pools[r.url] == r.result.value
  }

  /** How many calls have ended without a pool. */
  function Failures(outcomes: seq<Return>): nat {
    if outcomes == [] then 0
    else Failures(outcomes[..|outcomes| - 1]) + if outcomes[|outcomes| - 1].result.None? then 1 else 0
  }

  /** No pool is built in vain but by a failed call, and no other call fails. */
  ghost predicate CountsOk(s: State) {
    s.built == |s.created| + Failures(s.outcomes)
  }

  ghost predicate Inv(s: State) {
    LockOk(s) && MapOk(s) && CreatesMissing(s) && IdsOk(s) && ReturnsOk(s) && CountsOk(s)
  }

  lemma DoKeepsLock(s: State, t: nat, step: Step)
    requires LockOk(s) && Enabled(s, t, step)
    ensures LockOk(Do(s, t, step))
  {
    var s' := Do(s, t, step);
    assert forall u: nat :: u != t ==> PhaseOf(s', u) == PhaseOf(s, u);
  }

  /** What the phases have to do with the map. */
  ghost predicate CreatesMissing(s: State) {
    forall t: nat :: PhaseOf(s, t).Creating? ==> PhaseOf(s, t).url !in s.pools
  }

  ghost predicate Grows(s: State, s': State) {
    forall url :: url in s.pools ==> url in s'.pools && s'.pools[url] == s.pools[url]
  }

  lemma DoKeepsMap(s: State, t: nat, step: Step)
    requires MapOk(s) && CreatesMissing(s) && Enabled(s, t, step)
    ensures MapOk(Do(s, t, step)) && Grows(s, Do(s, t, step))
  {
    if step.Create? && step.works {
      CreateKeepsMap(s, t);
    }
  }

  lemma CreateKeepsMap(s: State, t: nat)
    requires MapOk(s) && CreatesMissing(s) && Enabled(s, t, Create(true))
    ensures MapOk(Do(s, t, Create(true))) && Grows(s, Do(s, t, Create(true)))
  {
    var s', entry := Do(s, t, Create(true)), Created(PhaseOf(s, t).url, Pool(s.built));
    assert s'.created == s.created + [entry] && entry in s'.created;
    assert forall c :: c in s.created ==> c in s'.created && c.url != entry.url;
  }

  lemma DoKeepsMissing(s: State, t: nat, step: Step)
    requires LockOk(s) && CreatesMissing(s) && Enabled(s, t, step)
    ensures CreatesMissing(Do(s, t, step))
  {
    assert forall u: nat :: u != t ==> PhaseOf(Do(s, t, step), u) == PhaseOf(s, u);
  }

  lemma DoKeepsIds(s: State, t: nat, step: Step)
    requires IdsOk(s) && Enabled(s, t, step)
    ensures IdsOk(Do(s, t, step))
  {
  }

  lemma DoKeepsReturns(s: State, t: nat, step: Step)
    requires Inv(s) && Enabled(s, t, step)
    ensures ReturnsOk(Do(s, t, step))
  {
    DoKeepsMap(s, t, step);
  }

  lemma FailuresSnoc(outcomes: seq<Return>, r: Return)
    ensures Failures(outcomes + [r]) == Failures(outcomes) + if r.result.None? then 1 else 0
  {
    assert (outcomes + [r])[..|outcomes|] == outcomes;
  }

  lemma DoKeepsCounts(s: State, t: nat, step: Step)
    requires CountsOk(s) && Enabled(s, t, step)
    ensures CountsOk(Do(s, t, step))
  {
    if Ending(s, t, step) {
      EndsCall(s, t, step);
      FailuresSnoc(s.outcomes, Do(s, t, step).outcomes[|s.outcomes|]);
    } else {
      KeepsCall(s, t, step);
    }
  }

  /** The step is the last of its call. */
  predicate Ending(s: State, t: nat, step: Step)
    requires Enabled(s, t, step)
  {
    step.Create? || ((step.EndRead? || step.CheckAgain?) && PhaseOf(s, t).url in s.pools)
  }

  lemma EndsCall(s: State, t: nat, step: Step)
    requires Enabled(s, t, step) && Ending(s, t, step)
    ensures var s' := Do(s, t, step);
            && |s'.outcomes| == |s.outcomes| + 1
            && var r := s'.outcomes[|s.outcomes|];
               && s'.outcomes == s.outcomes + [r] && r.thread == t && r.url == PhaseOf(s, t).url
               && PhaseOf(s', t).Idle? && !PhaseOf(s, t).Idle?
               && s'.built - |s'.created| == s.built - |s.created| + if r.result.None? then 1 else 0
  {
  }

  lemma KeepsCall(s: State, t: nat, step: Step)
    requires Enabled(s, t, step) && !Ending(s, t, step)
    ensures var s' := Do(s, t, step);
            && s'.outcomes == s.outcomes && s'.built == s.built && s'.created == s.created
            && !PhaseOf(s', t).Idle?
            && if step.BeginRead? then PhaseOf(s, t).Idle? && PhaseOf(s', t).url == step.url
               else !PhaseOf(s, t).Idle? && PhaseOf(s', t).url == PhaseOf(s, t).url
  {
  }

  lemma OthersKept(s: State, t: nat, step: Step, u: nat)
    requires Enabled(s, t, step) && u != t
    ensures PhaseOf(Do(s, t, step), u) == PhaseOf(s, u)
  {
  }

  lemma DoKeepsInv(s: State, t: nat, step: Step)
    requires Inv(s) && Enabled(s, t, step)
    ensures Inv(Do(s, t, step))
  {
    DoKeepsLock(s, t, step);
    DoKeepsMap(s, t, step);
    DoKeepsMissing(s, t, step);
    DoKeepsIds(s, t, step);
    DoKeepsReturns(s, t, step);
    DoKeepsCounts(s, t, step);
  }

  lemma DoOnlyAdds(s: State, t: nat, step: Step)
    requires Inv(s) && Enabled(s, t, step)
    ensures var s' := Do(s, t, step); s.created <= s'.created && s.outcomes <= s'.outcomes && Grows(s, s')
  {
    DoKeepsMap(s, t, step);
  }

  lemma {:induction false} PlayKeepsInv(s: State, events: seq<Event>)
    requires Inv(s) && Play(s, events).Some?
    ensures var s' := Play(s, events).value;
            Inv(s') && s.created <= s'.created && s.outcomes <= s'.outcomes
            && Grows(s, s')
    decreases |events|
  {
    if events != [] {
      var t, step := events[0].thread, events[0].step;
      DoKeepsInv(s, t, step);
      DoOnlyAdds(s, t, step);
      PlayKeepsInv(Do(s, t, step), events[1..]);
    }
  }

  // ---------------------------------------------------------------- what every run keeps

  /** In every run at most one pool is created for a URL, and every successful call for it returns that one. */
  lemma OnePoolPerUrl(events: seq<Event>)
    requires Play(START, events).Some?
    ensures var s := Play(START, events).value;
            && (forall i, j :: 0 <= i < j < |s.created| ==>
                  s.created[i].url != s.created[j].url && s.created[i].pool != s.created[j].pool)
            && (forall r :: r in s.outcomes && r.result.Some? ==> Created(r.url, r.result.value) in s.created)
            && (forall r, q :: r in s.outcomes && q in s.outcomes && r.url == q.url && r.result.Some? && q.result.Some?
                               ==> r.result == q.result)
  {
    PlayKeepsInv(START, events);
  }

  /** In every run exactly the failed creations end without a pool. */
  lemma FailuresAreCreations(events: seq<Event>)
    requires Play(START, events).Some?
    ensures var s := Play(START, events).value; s.built >= |s.created| && Failures(s.outcomes) == s.built - |s.created|
  {
    PlayKeepsInv(START, events);
  }

  /** A call that finds its URL in the map, at the first check or at the second, ends with exactly that pool. */
  lemma FoundIsReturned(events: seq<Event>, t: nat, step: Step)
    requires Play(START, events).Some? && Enabled(Play(START, events).value, t, step)
    requires step.EndRead? || step.CheckAgain?
    requires var s := Play(START, events).value; PhaseOf(s, t).url in s.pools
    ensures var s := Play(START, events).value;
            var url, s' := PhaseOf(s, t).url, Do(s, t, step);
            && s'.outcomes == s.outcomes + [Return(t, url, Some(s.pools[url]))]
            && PhaseOf(s', t).Idle? && t !in s'.readers && s'.writer != Some(t)
            && s'.pools == s.pools && s'.built == s.built
  {
    PlayKeepsInv(START, events);
  }

  /** What is added to the outcomes is, for a registered URL, its pool. */
  ghost predicate AddsPools(s: State, s': State, url: string, pool: Pool) {
    && s.outcomes <= s'.outcomes
    && forall k :: |s.outcomes| <= k < |s'.outcomes| && s'.outcomes[k].url == url ==>
         s'.outcomes[k].result == Some(pool)
  }

  lemma {:induction false} RegisteredAnswers(s: State, events: seq<Event>, url: string)
    requires Inv(s) && url in s.pools && Play(s, events).Some?
    ensures AddsPools(s, Play(s, events).value, url, s.pools[url])
    decreases |events|
  {
    if events != [] {
      var t, step := events[0].thread, events[0].step;
      var s' := Do(s, t, step);
      DoKeepsInv(s, t, step);
      DoAddsPool(s, t, step, url);
      RegisteredAnswers(s', events[1..], url);
      AddsMore(s, s', Play(s, events).value, url, s.pools[url]);
    }
  }

  lemma DoAddsPool(s: State, t: nat, step: Step, url: string)
    requires Inv(s) && url in s.pools && Enabled(s, t, step)
    ensures var s' := Do(s, t, step);
            url in s'.pools && s'.pools[url] == s.pools[url] && AddsPools(s, s', url, s.pools[url])
  {
    DoOnlyAdds(s, t, step);
    if Ending(s, t, step) {
      EndsCall(s, t, step);
    } else {
      KeepsCall(s, t, step);
    }
  }

  lemma AddsMore(s: State, s1: State, s2: State, url: string, pool: Pool)
    requires AddsPools(s, s1, url, pool) && AddsPools(s1, s2, url, pool)
    ensures AddsPools(s, s2, url, pool)
  {
    assert forall k :: |s.outcomes| <= k < |s1.outcomes| ==> s2.outcomes[k] == s1.outcomes[k];
  }

  /** From the moment a URL is registered, every call for it that ends, ends with its pool, whatever else happens. */
  lemma RegisteredForGood(events: seq<Event>, more: seq<Event>, url: string)
    requires Play(START, events).Some? && url in Play(START, events).value.pools
    requires Play(Play(START, events).value, more).Some?
    ensures var s, s' := Play(START, events).value, Play(Play(START, events).value, more).value;
            && url in s'.pools && s'.pools[url] == s.pools[url] && s.outcomes <= s'.outcomes
            && forall k :: |s.outcomes| <= k < |s'.outcomes| && s'.outcomes[k].url == url ==>
                 s'.outcomes[k].result == Some(s.pools[url])
  {
    PlayKeepsInv(START, events);
    PlayKeepsInv(Play(START, events).value, more);
    RegisteredAnswers(Play(START, events).value, more, url);
  }

  /** How many calls a thread has begun for a URL, and how many have returned. */
  function Begun(events: seq<Event>, t: nat, url: string): nat {
    if events == [] then 0 else (if events[0] == Event(t, BeginRead(url)) then 1 else 0) + Begun(events[1..], t, url)
  }

  function Returned(outcomes: seq<Return>, t: nat, url: string): nat {
    if outcomes == [] then 0
    else
      var last := outcomes[|outcomes| - 1];
      Returned(outcomes[..|outcomes| - 1], t, url) + if last.thread == t && last.url == url then 1 else 0
  }

  function UnderWay(s: State, t: nat, url: string): nat {
    if !PhaseOf(s, t).Idle? && PhaseOf(s, t).url == url then 1 else 0
  }

  lemma ReturnedSnoc(outcomes: seq<Return>, r: Return, t: nat, url: string)
    ensures Returned(outcomes + [r], t, url)
            == Returned(outcomes, t, url) + if r.thread == t && r.url == url then 1 else 0
  {
    assert (outcomes + [r])[..|outcomes|] == outcomes;
  }

  lemma DoCounts(s: State, u: nat, step: Step, t: nat, url: string)
    requires Enabled(s, u, step)
    ensures var s' := Do(s, u, step);
            Returned(s'.outcomes, t, url) + UnderWay(s', t, url)
            == Returned(s.outcomes, t, url) + UnderWay(s, t, url)
               + if u == t && step == BeginRead(url) then 1 else 0
  {
    if u != t {
      OthersKept(s, u, step, t);
    }
    if Ending(s, u, step) {
      EndsCall(s, u, step);
      ReturnedSnoc(s.outcomes, Do(s, u, step).outcomes[|s.outcomes|], t, url);
    } else {
      KeepsCall(s, u, step);
    }
  }

  lemma {:induction false} PlayCounts(s: State, events: seq<Event>, t: nat, url: string)
    requires Play(s, events).Some?
    ensures var s' := Play(s, events).value;
            Returned(s'.outcomes, t, url) + UnderWay(s', t, url)
            == Returned(s.outcomes, t, url) + UnderWay(s, t, url) + Begun(events, t, url)
    decreases |events|
  {
    if events != [] {
      DoCounts(s, events[0].thread, events[0].step, t, url);
      PlayCounts(Do(s, events[0].thread, events[0].step), events[1..], t, url);
    }
  }

  /** In every run each call returns once, to its own thread and for its own URL, or is still under way. */
  lemma EachCallReturnsOnce(events: seq<Event>, t: nat, url: string)
    requires Play(START, events).Some?
    ensures var s := Play(START, events).value;
            Begun(events, t, url) == Returned(s.outcomes, t, url) + UnderWay(s, t, url)
  {
    PlayCounts(START, events, t, url);
  }

  /** Readers share the lock. */
  lemma ReadersShare(url: string) returns (events: seq<Event>)
    ensures Play(START, events).Some?
    ensures var s := Play(START, events).value; PhaseOf(s, 0) == Reading(url) && PhaseOf(s, 1) == Reading(url)
  {
    events := [Event(0, BeginRead(url)), Event(1, BeginRead(url))];
    var s1 := Do(START, 0, BeginRead(url));
    assert events == [Event(0, BeginRead(url))] + [Event(1, BeginRead(url))];
    assert [Event(1, BeginRead(url))] == [Event(1, BeginRead(url))] + [];
    PlayStep(START, 0, BeginRead(url), [Event(1, BeginRead(url))]);
    PlayStep(s1, 1, BeginRead(url), []);
  }

  /** In every run nobody writes beside a reader or another writer. */
  lemma LockExcludes(events: seq<Event>, t: nat, u: nat)
    requires Play(START, events).Some? && t != u
    requires var p := PhaseOf(Play(START, events).value, t); p.Writing? || p.Creating?
    ensures var p := PhaseOf(Play(START, events).value, u); p.Idle? || p.Missed?
  {
    PlayKeepsInv(START, events);
  }

  /** No deadlock: while some call is under way, some call can go on. */
  lemma SomeoneCanGoOn(events: seq<Event>, t: nat) returns (u: nat, step: Step)
    requires Play(START, events).Some? && !PhaseOf(Play(START, events).value, t).Idle?
    ensures !PhaseOf(Play(START, events).value, u).Idle? && Enabled(Play(START, events).value, u, step)
  {
    PlayKeepsInv(START, events);
    var s := Play(START, events).value;
    if s.writer.Some? {
      u := s.writer.value;
      step := if PhaseOf(s, u).Writing? then CheckAgain else Create(true);
    } else if s.readers != {} {
      u :| u in s.readers;
      step := EndRead;
    } else {
      u, step := t, AcquireWrite;
    }
  }

  lemma {:induction false} PlayAppend(s: State, first: seq<Event>, more: seq<Event>)
    requires Play(s, first).Some?
    ensures Play(s, first + more) == Play(Play(s, first).value, more)
    decreases |first|
  {
    if first == [] {
      assert first + more == more;
    } else {
      assert (first + more)[1..] == first[1..] + more;
      PlayAppend(Do(s, first[0].thread, first[0].step), first[1..], more);
    }
  }

  /** One thread's whole call when nobody holds the lock and the URL is missing. */
  function FreshCall(t: nat, url: string, works: bool): seq<Event> {
    [Event(t, BeginRead(url)), Event(t, EndRead), Event(t, AcquireWrite), Event(t, CheckAgain), Event(t, Create(works))]
  }

  lemma PlayFreshCall(s: State, t: nat, url: string, works: bool) returns (s': State)
    requires PhaseOf(s, t).Idle? && s.readers == {} && s.writer.None? && url !in s.pools
    ensures Play(s, FreshCall(t, url, works)) == Some(s') && PhaseOf(s', t).Idle? && s'.writer.None? && s'.readers == {}
    ensures s'.pools == if works then s.pools[url := Pool(s.built)] else s.pools
    ensures s'.outcomes == s.outcomes + [Return(t, url, if works then Some(Pool(s.built)) else None)]
  {
    var events := FreshCall(t, url, works);
    var s1 := Do(s, t, BeginRead(url));
    var s2 := Do(s1, t, EndRead);
    assert s2.readers == {};
    var s3 := Do(s2, t, AcquireWrite);
    var s4 := Do(s3, t, CheckAgain);
    s' := Do(s4, t, Create(works));
    PlayStep(s, t, BeginRead(url), events[1..]);
    PlayStep(s1, t, EndRead, events[2..]);
    PlayStep(s2, t, AcquireWrite, events[3..]);
    PlayStep(s3, t, CheckAgain, events[4..]);
    PlayStep(s4, t, Create(works), events[5..]);
  }

  lemma PlayStep(s: State, t: nat, step: Step, more: seq<Event>)
    requires Enabled(s, t, step)
    ensures Play(s, [Event(t, step)] + more) == Play(Do(s, t, step), more)
  {
    assert ([Event(t, step)] + more)[1..] == more;
  }

  /**
   * After a failed connect or migration, in any run, the map is as before, the caller got the error, and any
   * idle thread can still create the pool.
   */
  lemma FailureCanBeRetried(events: seq<Event>, t: nat, u: nat)
    requires Play(START, events).Some? && Enabled(Play(START, events).value, t, Create(false))
    requires u == t || PhaseOf(Play(START, events).value, u).Idle?
    ensures var s := Play(START, events).value;
            var url, s' := PhaseOf(s, t).url, Do(s, t, Create(false));
            && s'.pools == s.pools && s'.outcomes == s.outcomes + [Return(t, url, None)]
            && var run := Play(s', FreshCall(u, url, true));
               && run.Some? && url in run.value.pools
               && run.value.outcomes == s'.outcomes + [Return(u, url, Some(Pool(s'.built)))]
  {
    PlayKeepsInv(START, events);
    var s := Play(START, events).value;
    var s' := Do(s, t, Create(false));
    var last := PlayFreshCall(s', u, PhaseOf(s, t).url, true);
  }

  /** The second check is needed: a run gets a thread behind the write lock whose URL has been created meanwhile. */
  lemma SecondCheckHits(url: string) returns (events: seq<Event>)
    ensures Play(START, events).Some?
    ensures var s := Play(START, events).value; PhaseOf(s, 1) == Writing(url) && url in s.pools
  {
    var missed := [Event(1, BeginRead(url)), Event(1, EndRead)];
    var s1 := Do(START, 1, BeginRead(url));
    var s2 := Do(s1, 1, EndRead);
    PlayStep(START, 1, BeginRead(url), [Event(1, EndRead)]);
    PlayStep(s1, 1, EndRead, []);
    assert missed == [Event(1, BeginRead(url))] + [Event(1, EndRead)];
    assert [Event(1, EndRead)] == [Event(1, EndRead)] + [];
    assert Play(START, missed) == Some(s2) && s2.readers == {};
    var s7 := PlayFreshCall(s2, 0, url, true);
    PlayAppend(START, missed, FreshCall(0, url, true));
    PhaseKept(s2, 0, url, 1);
    var s8 := Do(s7, 1, AcquireWrite);
    events := missed + FreshCall(0, url, true) + [Event(1, AcquireWrite)];
    PlayAppend(START, missed + FreshCall(0, url, true), [Event(1, AcquireWrite)]);
    assert Play(s7, [Event(1, AcquireWrite)]) == Some(s8);
  }

  lemma {:induction false} PlayLeavesOthers(s: State, events: seq<Event>, u: nat)
    requires Play(s, events).Some? && forall e :: e in events ==> e.thread != u
    ensures PhaseOf(Play(s, events).value, u) == PhaseOf(s, u)
    decreases |events|
  {
    if events != [] {
      PlayLeavesOthers(Do(s, events[0].thread, events[0].step), events[1..], u);
    }
  }

  lemma PhaseKept(s: State, t: nat, url: string, u: nat)
    requires t != u && Play(s, FreshCall(t, url, true)).Some?
    ensures PhaseOf(Play(s, FreshCall(t, url, true)).value, u) == PhaseOf(s, u)
  {
    PlayLeavesOthers(s, FreshCall(t, url, true), u);
  }
}
