/** The shared thread counters and the two functions that change them (listener.c, instance.c). */
module ThreadInfo {
  import opened WorkerPool
  import PoolInvariant
  import PoolTheorems

  /** How many of the pthread_create calls succeeded. */
  function Successes(created: seq<bool>): nat {
    if created == [] then 0 else Successes(created[..|created| - 1]) + if created[|created| - 1] then 1 else 0
  }

  class ThreadInfo {
    var free: nat
    var count: nat

    constructor ()
      ensures free == 0 && count == 0
    {
      free, count := 0, 0;
    }

    /** change_free_thread, under the mutex. */
    method ChangeFreeThread(freeDelta: int, countDelta: int)
      modifies this
      ensures (free, count) == Changed(old(free), old(count), freeDelta, countDelta)
    {
      free := Wrap(free + freeDelta);
      count := Wrap(count + countDelta);
    }

    /** init_threads; `created[i]` says whether the i-th pthread_create succeeds. */
    method InitThreads(n: nat, created: seq<bool>)
      requires |created| == n
      modifies this
      ensures free == old(free)
      ensures count == CountAfter(old(count), created)
    {
      if Wrap(count + n) < MAXTHREAD {
        var effective := 0;
        for i := 0 to n
          invariant effective == Successes(created[..i])
        {
          assert created[..i + 1][..i] == created[..i];
          if created[i] {
            effective := effective + 1;
          }
        }
        assert created[..n] == created;
        count := Wrap(count + effective);
      }
    }
  }

  /** What change_free_thread makes of the two counters. */
  function Changed(free: nat, count: nat, freeDelta: int, countDelta: int): (nat, nat) {
    (Wrap(free + freeDelta), Wrap(count + countDelta))
  }

  /** The steps of a worker that call change_free_thread. */
  predicate Calls(w: WorkerEvent) {
    w.Announce? || w.MarkBusy? || w.MarkFree? || w.Retire?
  }

  /** The arguments of the call. */
  function FreeDelta(w: WorkerEvent): int {
    if w.Announce? || w.MarkFree? then 1 else if w.MarkBusy? then -1 else 0
  }

  function CountDelta(w: WorkerEvent): int {
    if w.Retire? then -1 else 0
  }

  /** The machine's steps do to the counters what these calls do, with the mutex free, and the others nothing. */
  lemma WorkerStepsCall(s: State, t: nat, w: WorkerEvent)
    requires Reachable(s) && Enabled(s, Worker(t, w))
    ensures var s' := Step(s, Worker(t, w));
      if Calls(w) then Unlocked(s) && (s'.free, s'.count) == Changed(s.free, s.count, FreeDelta(w), CountDelta(w))
      else s'.free == s.free && s'.count == s.count
  {
    PoolTheorems.CountersNeverWrap(s, Worker(t, w));
    PoolTheorems.CountersAreExact(s);
  }

  /** So where the fields were the true numbers before the call of a worker, they are again after it. */
  method CallFromWorker(info: ThreadInfo, freeDelta: int, countDelta: int, ghost s: State, ghost t: nat, ghost w: WorkerEvent)
    requires Reachable(s) && Enabled(s, Worker(t, w)) && Calls(w)
    requires freeDelta == FreeDelta(w) && countDelta == CountDelta(w)
    requires info.free == |Those(s.workers, Free)| && info.count == |Those(s.workers, Live)|
    modifies info
    ensures var s' := Step(s, Worker(t, w));
      info.free == |Those(s'.workers, Free)| && info.count == |Those(s'.workers, Live)|
  {
    PoolInvariant.ReachableInv(s);
    PoolInvariant.StepKeepsInv(s, Worker(t, w));
    WorkerStepsCall(s, t, w);
    info.ChangeFreeThread(freeDelta, countDelta);
  }

  /** `count` after init_threads has taken the mutex with these outcomes of pthread_create. */
  function CountAfter(count: nat, created: seq<bool>): nat {
    if Wrap(count + |created|) < MAXTHREAD then Wrap(count + Successes(created)) else count
  }

  /** What is left of an init_threads call inside the lock; worker ids count up from `id`. */
  function Creations(created: seq<bool>, id: nat): seq<Event> {
    if created == [] then [Main(LeaveInit)] else
      [Main(Create(id, created[0]))] + Creations(created[1..], if created[0] then id + 1 else id)
  }

  lemma {:induction false} CreationsRun(s: State, created: seq<bool>, id: nat) returns (s': State)
    requires s.listener.Spawning? && s.listener.left == |created|
    requires forall t :: t in s.workers || t in s.listener.born ==> t < id
    ensures Run(s, Creations(created, id), s')
    ensures s'.free == s.free && s'.listener == Shaping
    ensures s'.count == Wrap(s.count + |s.listener.born| + Successes(created))
    decreases |created|
  {
    if created == [] {
      s' := Step(s, Main(LeaveInit));
      RunOnce(s, Main(LeaveInit), [], s');
    } else {
      var e := Main(Create(id, created[0]));
      var next := if created[0] then id + 1 else id;
      s' := CreationsRun(Step(s, e), created[1..], next);
      RunOnce(s, e, Creations(created[1..], next), s');
      SuccessesHead(created);
    }
  }

  lemma RunOnce(s: State, e: Event, rest: seq<Event>, s': State)
    requires Enabled(s, e) && Run(Step(s, e), rest, s')
    ensures Run(s, [e] + rest, s')
  {
    assert ([e] + rest)[1..] == rest;
  }

  /** The machine's init_threads, step by step, does to the counters what the method does. */
  lemma InitThreadsIsARun(s: State, created: seq<bool>, id: nat) returns (events: seq<Event>, s': State)
    requires s.listener == Launching(|created|)
    requires forall t :: t in s.workers ==> t < id
    ensures Run(s, [Main(EnterInit)] + events, s')
    ensures s'.free == s.free && s'.listener == Shaping && s'.count == CountAfter(s.count, created)
  {
    var entered := Step(s, Main(EnterInit));
    if entered.listener.Spawning? {
      events := Creations(created, id);
      s' := CreationsRun(entered, created, id);
    } else {
      events, s' := [], entered;
    }
    RunOnce(s, Main(EnterInit), events, s');
  }

  lemma {:induction false} SuccessesHead(created: seq<bool>)
    requires created != []
    ensures Successes(created) == (if created[0] then 1 else 0) + Successes(created[1..])
  {
    if |created| > 1 {
      var init := created[..|created| - 1];
      SuccessesHead(init);
      assert init[1..] == created[1..][..|created| - 2];
    }
  }

  // ---- With other threads in between ----

  /** The outcomes of the pthread_create calls in a run, in order. */
  function Outcomes(events: seq<Event>): seq<bool> {
    if events == [] then []
    else (if events[0].Main? && events[0].l.Create? then [events[0].l.ok] else []) + Outcomes(events[1..])
  }

  /** While init_threads holds the mutex, a step creates a thread or leaves both counters and the listener alone. */
  lemma SpawningStep(s: State, e: Event)
    requires s.listener.Spawning? && s.listener.born <= s.workers.Keys
    requires Enabled(s, e) && e != Main(LeaveInit)
    ensures var s' := Step(s, e);
      && s'.listener.Spawning? && s'.count == s.count && s'.free == s.free
      && s'.listener.born <= s'.workers.Keys
      && s'.listener.left + |Outcomes([e])| == s.listener.left
      && |s'.listener.born| == |s.listener.born| + Successes(Outcomes([e]))
  {
    assert [e][1..] == [];
    if e.Main? {
      assert Outcomes([e]) == [e.l.ok];
      assert [e.l.ok][..0] == [];
    } else {
      assert Outcomes([e]) == [];
    }
  }

  lemma {:induction false} SuccessesAppend(a: seq<bool>, b: seq<bool>)
    ensures Successes(a + b) == Successes(a) + Successes(b)
  {
    if b == [] {
      assert a + b == a;
    } else {
      SuccessesAppend(a, b[..|b| - 1]);
      assert (a + b)[..|a + b| - 1] == a + b[..|b| - 1];
    }
  }

  lemma OutcomesHead(events: seq<Event>)
    requires events != []
    ensures Outcomes(events) == Outcomes([events[0]]) + Outcomes(events[1..])
  {
    var one := [events[0]];
    assert one[1..] == [] && Outcomes(one[1..]) == [];
  }

  lemma {:induction false} SpawningRun(s: State, events: seq<Event>, s': State)
    requires s.listener.Spawning? && s.listener.born <= s.workers.Keys
    requires Run(s, events, s') && Main(LeaveInit) !in events
    ensures s'.listener.Spawning? && s'.count == s.count && s'.free == s.free
    ensures s'.listener.left + |Outcomes(events)| == s.listener.left
    ensures |s'.listener.born| == |s.listener.born| + Successes(Outcomes(events))
    decreases |events|
  {
    if events != [] {
      var e := events[0];
      SpawningStep(s, e);
      SpawningRun(Step(s, e), events[1..], s');
      OutcomesHead(events);
      SuccessesAppend(Outcomes([e]), Outcomes(events[1..]));
    }
  }

  lemma {:induction false} RunSplit(s: State, a: seq<Event>, b: seq<Event>, s': State) returns (m: State)
    requires Run(s, a + b, s')
    ensures Run(s, a, m) && Run(m, b, s')
    decreases |a|
  {
    if a == [] {
      assert a + b == b;
      m := s;
    } else {
      assert (a + b)[1..] == a[1..] + b;
      m := RunSplit(Step(s, a[0]), a[1..], b, s');
    }
  }

  /**
   Whatever the workers do in between, and in whatever order: from the moment init_threads has
   the mutex to the moment it gives it up, `count` becomes what the method makes of its value at
   the lock and of the outcomes of the creations, and `free` stays.
   */
  lemma InitThreadsUnderLock(s: State, events: seq<Event>, s': State)
    requires s.listener.Launching? && Step(s, Main(EnterInit)).listener.Spawning?
    requires Main(LeaveInit) !in events
    requires Run(Step(s, Main(EnterInit)), events + [Main(LeaveInit)], s')
    ensures |Outcomes(events)| == s.listener.n
    ensures s'.count == CountAfter(s.count, Outcomes(events)) && s'.free == s.free && s'.listener == Shaping
  {
    var entered := Step(s, Main(EnterInit));
    var m := RunSplit(entered, events, [Main(LeaveInit)], s');
    SpawningRun(entered, events, m);
    assert [Main(LeaveInit)][1..] == [];
    assert s' == Step(m, Main(LeaveInit));
  }
}
