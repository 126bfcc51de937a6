/** When the listener's last, smaller group of threads is started (listener.c). */
module PoolGrowth {
  import opened WorkerPool
  import opened PoolInvariant
  import PoolTheorems

  /** Steps of workers only. */
  predicate ByWorkers(events: seq<Event>) {
    forall e :: e in events ==> e.Worker?
  }

  function Retirements(events: seq<Event>): nat {
    if events == [] then 0
    else (if events[0].Worker? && events[0].w.Retire? then 1 else 0) + Retirements(events[1..])
  }

  /** Without the listener `count` falls by one for each worker that retires, and by nothing else. */
  lemma {:induction false} CountFalls(s: State, events: seq<Event>, s': State)
    requires Inv(s) && Run(s, events, s') && ByWorkers(events)
    ensures s'.listener == s.listener && s'.count + Retirements(events) == s.count
    decreases |events|
  {
    if events != [] {
      var e := events[0];
      assert e in events && forall f :: f in events[1..] ==> f in events;
      PoolTheorems.WorkerNeverWraps(s, e.t, e.w);
      StepKeepsInv(s, e);
      CountFalls(Step(s, e), events[1..], s');
    }
  }

  /**
   The listener asks for MAXTHREAD - count threads when a whole group no longer fits. Under the
   strict bound that is one too many for the value it has read, so the group is started exactly
   if a worker retires between the unlocked read and the lock.
   */
  lemma {:induction false} LastGroupStarts(s: State, events: seq<Event>, s': State)
    requires Inv(s) && s.listener == ReadingCountAgain
    requires Run(Step(s, Main(Read)), events, s') && ByWorkers(events)
    ensures Enabled(s', Main(EnterInit))
    ensures Step(s', Main(EnterInit)).listener
         == if Retirements(events) > 0 then Spawning(MAXTHREAD - s.count, {}) else Shaping
  {
    var asked := Step(s, Main(Read));
    CountBelowMax(s);
    StepKeepsInv(s, Main(Read));
    assert asked.count == s.count && asked.listener == Launching(MAXTHREAD - s.count);
    CountFalls(asked, events, s');
    Entered(s', MAXTHREAD - s.count);
  }

  lemma CountBelowMax(s: State)
    requires Inv(s)
    ensures s.count < MAXTHREAD
  {
  }

  lemma Entered(s: State, n: nat)
    requires s.listener == Launching(n) && s.count + n <= MAXTHREAD
    ensures Step(s, Main(EnterInit)).listener == if s.count + n < MAXTHREAD then Spawning(n, {}) else Shaping
  {
  }

  // ---- Both can happen ----

  lemma {:induction false} RunAppend(s: State, a: seq<Event>, m: State, b: seq<Event>, s': State)
    requires Run(s, a, m) && Run(m, b, s')
    ensures Run(s, a + b, s')
    decreases |a|
  {
    if a == [] {
      assert a + b == b;
    } else {
      assert (a + b)[1..] == a[1..] + b;
      RunAppend(Step(s, a[0]), a[1..], m, b, s');
    }
  }

  lemma InitialIsReachable()
    ensures Reachable(Initial())
  {
    var none: seq<Event> := [];
    assert Run(Initial(), none, Initial());
  }

  lemma ReachableOn(s: State, events: seq<Event>, s': State)
    requires Reachable(s) && Run(s, events, s')
    ensures Reachable(s')
  {
    var before :| Run(Initial(), before, s);
    RunAppend(Initial(), before, s, events, s');
  }

  lemma ReachableStep(s: State, e: Event)
    requires Reachable(s) && Enabled(s, e)
    ensures Reachable(Step(s, e))
  {
    assert [e][1..] == [];
    assert Run(Step(s, e), [], Step(s, e));
    assert Run(s, [e], Step(s, e));
    ReachableOn(s, [e], Step(s, e));
  }

  /** The workers are `n` that have just been created. */
  ghost predicate AllStarting(s: State, n: nat) {
    && (forall t: nat :: t in s.workers <==> t < n)
    && (forall t :: t in s.workers ==> s.workers[t] == Starting)
  }

  /** All the creations of a group succeed. */
  lemma {:induction false} SpawnAll(s: State, n: nat) returns (s': State)
    requires Reachable(s) && s.listener.Spawning? && AllStarting(s, n)
    ensures Reachable(s') && s'.listener == Shaping && s'.free == s.free && AllStarting(s', n + s.listener.left)
    decreases s.listener.left
  {
    if s.listener.left == 0 {
      s' := Step(s, Main(LeaveInit));
      ReachableStep(s, Main(LeaveInit));
    } else {
      var e := Main(Create(n, true));
      ReachableStep(s, e);
      s' := SpawnAll(Step(s, e), n + 1);
    }
  }

  /** One turn of the accept loop without a connection, up to the choice of a group. */
  lemma Turn(s: State) returns (s': State)
    requires Reachable(s) && s.listener == Shaping && s.free <= LOWTHREAD
    ensures Reachable(s') && s' == s.(listener := ReadingCount)
  {
    ReachableStep(s, Main(TooEarly));
    var a := Step(s, Main(TooEarly));
    ReachableStep(a, Main(Accept(-1)));
    var b := Step(a, Main(Accept(-1)));
    ReachableStep(b, Main(Read));
    var c := Step(b, Main(Read));
    ReachableStep(c, Main(Read));
    s' := Step(c, Main(Read));
  }

  /** A whole group, from the moment it is asked for. */
  lemma Group6(s: State, n: nat) returns (s': State)
    requires Reachable(s) && s.listener == Launching(INITIALTHREAD) && s.free == 0
    requires AllStarting(s, n) && s.count + INITIALTHREAD < MAXTHREAD
    ensures Reachable(s') && s'.listener == Shaping && s'.free == 0 && AllStarting(s', n + INITIALTHREAD)
  {
    ReachableStep(s, Main(EnterInit));
    s' := SpawnAll(Step(s, Main(EnterInit)), n);
  }

  function Numbers(n: nat): (ns: set<nat>)
    ensures |ns| == n && forall t: nat :: t in ns <==> t < n
  {
    if n == 0 then {} else Numbers(n - 1) + {n - 1}
  }

  lemma CountIsAll(s: State, n: nat)
    requires Reachable(s) && Unlocked(s) && AllStarting(s, n)
    ensures s.count == n
  {
    PoolTheorems.CountersAreExact(s);
    assert Those(s.workers, Live) == Numbers(n);
  }

  /** Groups of six can be started until 294 threads live. */
  lemma {:induction false} Grown(k: nat) returns (s: State)
    requires 1 <= k <= 49
    ensures Reachable(s) && s.listener == Shaping && s.free == 0 && AllStarting(s, INITIALTHREAD * k)
  {
    if k == 1 {
      InitialIsReachable();
      s := Group6(Initial(), 0);
    } else {
      var before := Grown(k - 1);
      CountIsAll(before, INITIALTHREAD * (k - 1));
      var asking := Turn(before);
      ReachableStep(asking, Main(Read));
      s := Group6(Step(asking, Main(Read)), INITIALTHREAD * (k - 1));
    }
  }

  /** The listener is about to ask for the last six threads, and a worker is about to retire. */
  lemma Crowded() returns (s: State)
    ensures Reachable(s) && s.listener == ReadingCountAgain && s.count == 294
    ensures 0 in s.workers && s.workers[0] == Leaving(false)
  {
    var full := Grown(49);
    CountIsAll(full, 294);
    ReachableStep(full, Worker(0, InitFailed));
    var asking := Turn(Step(full, Worker(0, InitFailed)));
    ReachableStep(asking, Main(Read));
    s := Step(asking, Main(Read));
  }

  /** Nothing happens between the read and the lock: the last group is not started. */
  lemma NotStarted(s: State) returns (s': State)
    requires Reachable(s) && s.listener == ReadingCountAgain
    ensures Run(s, [Main(Read), Main(EnterInit)], s') && s'.listener == Shaping
  {
    ReachableInv(s);
    var asked := Step(s, Main(Read));
    var none: seq<Event> := [];
    assert Run(asked, none, asked);
    LastGroupStarts(s, none, asked);
    TwoSteps(s, Main(Read), Main(EnterInit));
    s' := Step(asked, Main(EnterInit));
  }

  /** A worker retires in between: it is. */
  lemma Started(s: State, t: nat) returns (s': State)
    requires Reachable(s) && s.listener == ReadingCountAgain && t in s.workers && s.workers[t].Leaving?
    ensures Run(s, [Main(Read), Worker(t, Retire), Main(EnterInit)], s')
    ensures s.count < MAXTHREAD && s'.listener == Spawning(MAXTHREAD - s.count, {})
  {
    ReachableInv(s);
    var e := Worker(t, Retire);
    var asked := Step(s, Main(Read));
    var fewer := Step(asked, e);
    assert [e][1..] == [] && Retirements([e]) == 1;
    assert Run(fewer, [e][1..], fewer);
    assert Run(asked, [e], fewer);
    LastGroupStarts(s, [e], fewer);
    TwoSteps(asked, e, Main(EnterInit));
    assert [Main(Read), e, Main(EnterInit)][1..] == [e, Main(EnterInit)];
    s' := Step(fewer, Main(EnterInit));
  }

  /** From one and the same reachable state the last group is started by one run and not by another. */
  lemma LastGroupEitherWay() returns (s: State, none: State, started: State)
    ensures Reachable(s) && s.listener == ReadingCountAgain
    ensures Run(s, [Main(Read), Main(EnterInit)], none) && none.listener == Shaping
    ensures Run(s, [Main(Read), Worker(0, Retire), Main(EnterInit)], started)
    ensures started.listener == Spawning(INITIALTHREAD, {})
  {
    s := Crowded();
    none := NotStarted(s);
    started := Started(s, 0);
  }

  lemma TwoSteps(s: State, e: Event, f: Event)
    requires Enabled(s, e) && Enabled(Step(s, e), f)
    ensures Run(s, [e, f], Step(Step(s, e), f))
  {
    assert [e, f][1..] == [f] && [f][1..] == [];
    assert Run(Step(Step(s, e), f), [], Step(Step(s, e), f));
    assert Run(Step(s, e), [f], Step(Step(s, e), f));
  }
}
