/**
 When the listener retires a worker and when it starts a group of workers (listener.c), by the
 true numbers of workers and over whole runs.
 */
module PoolDecisions {
  import opened SynQueue
  import opened WorkerPool
  import opened PoolInvariant
  import opened PoolGrowth
  import PoolTheorems

  /** The workers that are really free. */
  function Spare(s: State): nat {
    |Those(s.workers, Free)|
  }

  /** What a step of the listener may be. */
  datatype Mark =
    | TooMany      // t_shape while more than MAXFREETHREAD workers are free
    | OrderPut     // the call of q_put with the termination order
    | OrderStored  // such a call that finds room in the ring
    | Arrival      // a call of accept, successful or not
    | Check        // the first read after the connection has been dealt with
    | TooFew       // such a read while no more than LOWTHREAD workers are free
    | Group        // a call of init_threads

  ghost predicate Marked(s: State, e: Event, k: Mark) {
    match k
    case TooMany => e == Main(Shape) && Spare(s) > MAXFREETHREAD
    case OrderPut => e.Main? && e.l.Put? && s.listener.PuttingOrder?
    case OrderStored => e.Main? && e.l.Put? && s.listener.PuttingOrder? && |s.q.items| < s.q.size
    case Arrival => e.Main? && e.l.Accept?
    case Check => e == Main(Read) && s.listener.ReadingFree?
    case TooFew => e == Main(Read) && s.listener.ReadingFree? && Spare(s) <= LOWTHREAD
    case Group => e == Main(EnterInit)
  }

  /** How many steps of a run from s are of this kind. */
  ghost function Tally(s: State, events: seq<Event>, k: Mark): nat
    decreases |events|
  {
    if events == [] || !Enabled(s, events[0]) then 0
    else (if Marked(s, events[0], k) then 1 else 0) + Tally(Step(s, events[0]), events[1..], k)
  }

  /** Something that one step of the listener begins and another ends. */
  datatype Matter = Retiring | Checking | Growing

  /** The listener has begun it and not ended it. */
  predicate Pending(l: Listener, m: Matter) {
    match m
    case Retiring => l.PuttingOrder?
    case Checking => l.PuttingSock? || l.Dropping? || l.ReadingFree?
    case Growing => l.ReadingFreeAgain? || l.ReadingCount? || l.ReadingCountAgain? || l.Launching?
  }

  function Beginning(m: Matter): Mark {
    match m case Retiring => TooMany case Checking => Arrival case Growing => TooFew
  }

  function Ending(m: Matter): Mark {
    match m case Retiring => OrderPut case Checking => Check case Growing => Group
  }

  /** Each matter is begun by its own steps only, and stays with the listener until it is ended. */
  lemma StepBegins(s: State, e: Event, m: Matter)
    requires Inv(s) && Enabled(s, e)
    ensures Marked(s, e, Beginning(m)) ==> !Pending(s.listener, m)
    ensures Marked(s, e, Ending(m)) ==> Pending(s.listener, m)
    ensures Pending(Step(s, e).listener, m)
       <==> Marked(s, e, Beginning(m)) || (Pending(s.listener, m) && !Marked(s, e, Ending(m)))
  {
    FreeAtMostCount(s);
    match e
    case Main(l) => ListenerBegins(s, l, m);
    case Worker(t, w) => assert Step(s, e).listener == s.listener;
  }

  lemma ListenerBegins(s: State, l: ListenerEvent, m: Matter)
    requires ListenerEnabled(s, l) && s.free == Spare(s) && s.free < MAXTHREAD
    ensures Marked(s, Main(l), Beginning(m)) ==> !Pending(s.listener, m)
    ensures Marked(s, Main(l), Ending(m)) ==> Pending(s.listener, m)
    ensures Pending(StepListener(s, l).listener, m)
       <==> Marked(s, Main(l), Beginning(m)) || (Pending(s.listener, m) && !Marked(s, Main(l), Ending(m)))
  {
  }

  function One(b: bool): nat {
    if b then 1 else 0
  }

  /** What is begun is ended once, or still pending. */
  lemma {:induction false} EndsWhatItBegins(s: State, events: seq<Event>, s': State, m: Matter)
    requires Inv(s) && Run(s, events, s')
    ensures One(Pending(s.listener, m)) + Tally(s, events, Beginning(m))
         == Tally(s, events, Ending(m)) + One(Pending(s'.listener, m))
    decreases |events|
  {
    if events != [] {
      StepBegins(s, events[0], m);
      StepKeepsInv(s, events[0]);
      EndsWhatItBegins(Step(s, events[0]), events[1..], s', m);
    }
  }

  lemma PutStores(s: State, woken: set<nat>)
    requires ListenerEnabled(s, Put(woken)) && OrderKept(s)
    requires s.listener.PuttingSock? ==> s.listener.sock >= 0
    ensures StepPut(s, woken).puts
         == if |s.q.items| < s.q.size then s.puts + [PutValue(s.listener)] else s.puts
    ensures multiset(StepPut(s, woken).puts)[ORDER]
         == multiset(s.puts)[ORDER] + One(s.listener.PuttingOrder? && |s.q.items| < s.q.size)
  {
  }

  lemma StepStores(s: State, e: Event)
    requires OrderKept(s) && OrdersObeyed(s) && Enabled(s, e)
    ensures multiset(Step(s, e).puts)[ORDER] == multiset(s.puts)[ORDER] + One(Marked(s, e, OrderStored))
  {
    if e.Main? && e.l.Put? {
      PutStores(s, e.l.woken);
    } else {
      assert Step(s, e).puts == s.puts;
    }
  }

  lemma {:induction false} StoresOrders(s: State, events: seq<Event>, s': State)
    requires Inv(s) && Run(s, events, s')
    ensures multiset(s'.puts)[ORDER] == multiset(s.puts)[ORDER] + Tally(s, events, OrderStored)
    decreases |events|
  {
    if events != [] {
      StepStores(s, events[0]);
      StepKeepsInv(s, events[0]);
      StoresOrders(Step(s, events[0]), events[1..], s');
    }
  }

  lemma {:induction false} TallyWithin(s: State, events: seq<Event>)
    ensures Tally(s, events, OrderStored) <= Tally(s, events, OrderPut)
    decreases |events|
  {
    if events != [] && Enabled(s, events[0]) {
      TallyWithin(Step(s, events[0]), events[1..]);
    }
  }

  lemma InitialInv()
    ensures Inv(Initial())
  {
    InitialIsReachable();
    ReachableInv(Initial());
  }

  /**
   In every run q_put is called with the termination order exactly as often as t_shape has found
   more than MAXFREETHREAD workers free, the call not yet made apart; the orders in the queue and
   those that workers have taken are the calls that found room.
   */
  lemma OrdersAreDecisions(events: seq<Event>, s: State)
    requires Run(Initial(), events, s)
    ensures Tally(Initial(), events, TooMany)
         == Tally(Initial(), events, OrderPut) + One(s.listener.PuttingOrder?)
    ensures multiset(s.q.items)[ORDER] + |Those(s.workers, Ordered)| == Tally(Initial(), events, OrderStored)
    ensures |Those(s.workers, Ordered)| <= Tally(Initial(), events, TooMany)
  {
    InitialInv();
    EndsWhatItBegins(Initial(), events, s, Retiring);
    StoresOrders(Initial(), events, s);
    TallyWithin(Initial(), events);
    PoolTheorems.OrdersRetireOneWorkerEach(s);
  }

  /**
   In every run the number of free workers is checked once for each call of accept, when the
   connection has been stored or dropped or there is none, and init_threads is called exactly once
   for each check that finds no more than LOWTHREAD of them, and once at the start.
   */
  lemma GroupsAreShortages(events: seq<Event>, s: State)
    requires Run(Initial(), events, s)
    ensures Tally(Initial(), events, Arrival)
         == Tally(Initial(), events, Check) + One(Pending(s.listener, Checking))
    ensures 1 + Tally(Initial(), events, TooFew)
         == Tally(Initial(), events, Group) + One(Pending(s.listener, Growing))
  {
    InitialInv();
    EndsWhatItBegins(Initial(), events, s, Checking);
    EndsWhatItBegins(Initial(), events, s, Growing);
  }

  /** Where in a run the matter that is pending at its end was begun. */
  lemma {:induction false} PendingSince(s: State, events: seq<Event>, s': State, m: Matter) returns (i: nat, at: State)
    requires Inv(s) && Run(s, events, s') && Pending(s'.listener, m)
    requires !Pending(s.listener, m) || Tally(s, events, Ending(m)) > 0
    ensures i < |events| && Run(s, events[..i], at) && Enabled(at, events[i])
    ensures Marked(at, events[i], Beginning(m))
    ensures Run(Step(at, events[i]), events[i + 1..], s')
    ensures Tally(Step(at, events[i]), events[i + 1..], Ending(m)) == 0
    decreases |events|
  {
    EndsWhatItBegins(s, events, s', m);
    assert events != [];
    var e, rest := events[0], events[1..];
    var next := Step(s, e);
    StepBegins(s, e, m);
    StepKeepsInv(s, e);
    if Marked(s, e, Beginning(m)) && Tally(next, rest, Ending(m)) == 0 {
      i, at := 0, s;
      assert events[..0] == [] && events[0 + 1..] == rest;
    } else {
      var j;
      j, at := PendingSince(next, rest, s', m);
      i := j + 1;
      OneLater(s, events, j, at);
    }
  }

  /** A position in what follows the first event is one more in the whole run. */
  lemma OneLater(s: State, events: seq<Event>, j: nat, at: State)
    requires events != [] && Enabled(s, events[0]) && j < |events[1..]|
    requires Run(Step(s, events[0]), events[1..][..j], at)
    ensures Run(s, events[..j + 1], at)
    ensures events[j + 1] == events[1..][j] && events[j + 1 + 1..] == events[1..][j + 1..]
  {
    assert events[..j + 1][0] == events[0] && events[..j + 1][1..] == events[1..][..j];
  }

  /**
   Wherever in a run the termination order is about to be put, t_shape has decided on it while more
   than MAXFREETHREAD workers were free, and no other order has been put since.
   */
  lemma OrderWasDecided(events: seq<Event>, s: State) returns (i: nat, at: State)
    requires Run(Initial(), events, s) && s.listener.PuttingOrder?
    ensures i < |events| && Run(Initial(), events[..i], at) && events[i] == Main(Shape) && Enabled(at, events[i])
    ensures Spare(at) > MAXFREETHREAD
    ensures Run(Step(at, events[i]), events[i + 1..], s)
    ensures Tally(Step(at, events[i]), events[i + 1..], OrderPut) == 0
  {
    InitialInv();
    i, at := PendingSince(Initial(), events, s, Retiring);
  }

  /** The same of a group of threads, after the first one. */
  lemma GroupWasNeeded(events: seq<Event>, s: State) returns (i: nat, at: State)
    requires Run(Initial(), events, s) && s.listener.Launching? && Tally(Initial(), events, Group) > 0
    ensures i < |events| && Run(Initial(), events[..i], at) && events[i] == Main(Read) && Enabled(at, events[i])
    ensures at.listener.ReadingFree? && Spare(at) <= LOWTHREAD
    ensures Run(Step(at, events[i]), events[i + 1..], s)
    ensures Tally(Step(at, events[i]), events[i + 1..], Group) == 0
  {
    InitialInv();
    i, at := PendingSince(Initial(), events, s, Growing);
  }

  /** The next steps after each decision, in any reachable state. */
  lemma DecisionsByNumbers(s: State, e: Event)
    requires Reachable(s) && Enabled(s, e)
    ensures e == Main(Shape) ==>
      Step(s, e).listener == if Spare(s) > MAXFREETHREAD then PuttingOrder else Accepting
    ensures e == Main(Read) && s.listener.ReadingFree? ==>
      Step(s, e).listener == if Spare(s) <= LOWTHREAD then ReadingFreeAgain else Shaping
    ensures e == Main(Read) && s.listener.ReadingFreeAgain? ==> Step(s, e).listener == ReadingCount
    ensures e == Main(Read) && s.listener.ReadingCount? ==>
      Step(s, e).listener
      == if |Those(s.workers, Live)| + INITIALTHREAD < MAXTHREAD then Launching(INITIALTHREAD) else ReadingCountAgain
    ensures e == Main(Read) && s.listener.ReadingCountAgain? ==>
      Step(s, e).listener.Launching? && Step(s, e).listener.n + |Those(s.workers, Live)| == MAXTHREAD
  {
    PoolTheorems.CountersAreExact(s);
  }
}
