/**
 The listener and its worker threads as one step machine (listener.c, instance.c, queue.c).

 A step is one hold of the queue's mutex, one hold of `thread_info.mutex`, or one
 unlocked read or system call. `init_threads` keeps `thread_info.mutex` over several
 thread creations, so while the listener is in `Spawning` no worker can change the
 counters. What a worker does with a connection is a single step that does not close
 the socket.
 */
module WorkerPool {
  import opened SynQueue

  const MAXTHREAD := 300
  const INITIALTHREAD := 6
  const LOWTHREAD := 3
  const MAXFREETHREAD := 6

  /** The termination order that t_shape puts in the queue. */
  const ORDER := -1

  /** The value of x as a 32-bit `unsigned int`. */
  function Wrap(x: int): nat {
    x % 0x1_0000_0000
  }

  /** Where a worker is between two steps of `instance`. */
  datatype Phase =
    | Starting                 // created, has not announced itself yet
    | Idle                     // counted as free, about to call q_get
    | Waiting                  // asleep on for_data
    | Woken                    // signalled or spuriously awake, must re-enter the wait loop
    | Got(val: int)            // q_get returned, still counted as free
    | Serving(sock: int)       // handling a connection
    | Closed                   // has closed the socket, not yet counted as free again
    | Leaving(ordered: bool)   // releasing resources; ordered when a -1 told it to
    | Exited(ordered: bool)

  /** Where the listener is in its accept loop. */
  datatype Listener =
    | Shaping
    | PuttingOrder
    | Accepting
    | PuttingSock(sock: int)
    | Dropping(sock: int)
    | ReadingFree              // thread_info.free <= LOWTHREAD
    | ReadingFreeAgain         // thread_info.free < MAXTHREAD
    | ReadingCount             // thread_info.count + INITIALTHREAD < MAXTHREAD
    | ReadingCountAgain        // MAXTHREAD - thread_info.count
    | Launching(n: nat)        // init_threads(n), mutex not yet taken
    | Spawning(left: nat, born: set<nat>) // inside init_threads, `born` created so far

  /** `open` is the kernel's set of open client sockets; the last five fields are history. */
  datatype State = State(
    q: Queue,
    workers: map<nat, Phase>,
    free: nat,
    count: nat,
    listener: Listener,
    open: set<int>,
    puts: seq<int>,
    gets: seq<int>,
    accepted: multiset<int>,
    droppedSocks: multiset<int>,
    servedSocks: multiset<int>)

  datatype ListenerEvent =
    | TooEarly                        // t_shape, less than ten seconds after its last action
    | Shape                           // t_shape reads the number of free workers
    | Accept(fd: int)
    | Put(woken: set<nat>)            // q_put; pthread_cond_signal may wake several waiters
    | Drop                            // closes the socket that did not fit
    | Read                            // the next unlocked read of a counter
    | EnterInit
    | Create(t: nat, ok: bool)        // pthread_create
    | LeaveInit

  datatype WorkerEvent =
    | InitFailed
    | Announce
    | Get                             // one segment of q_get
    | Spurious
    | MarkBusy
    | Close
    | MarkFree
    | Retire

  datatype Event = Main(l: ListenerEvent) | Worker(t: nat, w: WorkerEvent)

  /** The groups of workers that the invariants count. */
  datatype Group = Asleep | Awake | Free | Live | Ordered

  predicate Belongs(p: Phase, g: Group) {
    match g
    case Asleep => p.Waiting?
    case Awake => p.Woken?
    case Free => p.Idle? || p.Waiting? || p.Woken? || p.Got?
    case Live => !p.Exited?
    case Ordered => (p.Got? && p.val < 0) || (p.Leaving? && p.ordered) || (p.Exited? && p.ordered)
  }

  function Those(workers: map<nat, Phase>, g: Group): set<nat> {
    set t | t in workers && Belongs(workers[t], g)
  }

  /** thread_info.mutex is free. */
  predicate Unlocked(s: State) {
    !s.listener.Spawning?
  }

  /** What pthread_cond_signal may do: nothing without a signal or a waiter, else wake at least one. */
  predicate MayWake(s: State, woken: set<nat>) {
    && woken <= Those(s.workers, Asleep)
    && (s.q.waiters > 0 && Those(s.workers, Asleep) != {} ==> woken != {})
    && (s.q.waiters <= 0 ==> woken == {})
  }

  predicate ListenerEnabled(s: State, e: ListenerEvent) {
    match e
    case TooEarly => s.listener.Shaping?
    case Shape => s.listener.Shaping?
    case Accept(fd) => s.listener.Accepting? && (fd >= 0 ==> fd !in s.open)
    case Put(woken) => (s.listener.PuttingOrder? || s.listener.PuttingSock?) && MayWake(s, woken)
    case Drop => s.listener.Dropping?
    case Read => s.listener.ReadingFree? || s.listener.ReadingFreeAgain?
              || s.listener.ReadingCount? || s.listener.ReadingCountAgain?
    case EnterInit => s.listener.Launching?
    case Create(t, ok) => s.listener.Spawning? && s.listener.left > 0 && t !in s.workers
    case LeaveInit => s.listener.Spawning? && s.listener.left == 0
  }

  predicate WorkerEnabled(s: State, p: Phase, e: WorkerEvent) {
    match e
    case InitFailed => p.Starting?
    case Announce => p.Starting? && Unlocked(s)
    case Get => p.Idle? || p.Woken?
    case Spurious => p.Waiting?
    case MarkBusy => p.Got? && Unlocked(s)
    case Close => p.Serving?
    case MarkFree => p.Closed? && Unlocked(s)
    case Retire => p.Leaving? && Unlocked(s)
  }

  predicate Enabled(s: State, e: Event) {
    match e
    case Main(l) => ListenerEnabled(s, l)
    case Worker(t, w) => t in s.workers && WorkerEnabled(s, s.workers[t], w)
  }

  /** The value the listener is about to put. */
  function PutValue(l: Listener): int
    requires l.PuttingOrder? || l.PuttingSock?
  {
    if l.PuttingOrder? then ORDER else l.sock
  }

  function Rouse(workers: map<nat, Phase>, woken: set<nat>): map<nat, Phase> {
    map t | t in workers :: if t in woken then Woken else workers[t]
  }

  function StepPut(s: State, woken: set<nat>): State
    requires s.listener.PuttingOrder? || s.listener.PuttingSock?
  {
    var val := PutValue(s.listener);
    var r := PutSegment(s.q, val);
    s.(q := r.q,
       workers := Rouse(s.workers, woken),
       listener := if s.listener.PuttingOrder? then Accepting
                   else if r.full then Dropping(val) else ReadingFree,
       puts := if r.full then s.puts else s.puts + [val])
  }

  function StepRead(s: State): Listener {
    match s.listener
    case ReadingFree => if s.free <= LOWTHREAD then ReadingFreeAgain else Shaping
    case ReadingFreeAgain => if s.free < MAXTHREAD then ReadingCount else Shaping
    case ReadingCount =>
      if Wrap(s.count + INITIALTHREAD) < MAXTHREAD then Launching(INITIALTHREAD) else ReadingCountAgain
    case ReadingCountAgain => Launching(Wrap(MAXTHREAD - s.count))
    case l => l
  }

  function StepListener(s: State, e: ListenerEvent): State
    requires ListenerEnabled(s, e)
  {
    match e
    case TooEarly => s.(listener := Accepting)
    case Shape => s.(listener := if s.free > MAXFREETHREAD then PuttingOrder else Accepting)
    case Accept(fd) =>
      if fd >= 0 then
        s.(listener := PuttingSock(fd), open := s.open + {fd}, accepted := s.accepted + multiset{fd})
      else
        s.(listener := ReadingFree)
    case Put(woken) => StepPut(s, woken)
    case Drop =>
      var fd := s.listener.sock;
      s.(listener := ReadingFree, open := s.open - {fd}, droppedSocks := s.droppedSocks + multiset{fd})
    case Read => s.(listener := StepRead(s))
    case EnterInit =>
      var n := s.listener.n;
      s.(listener := if Wrap(s.count + n) < MAXTHREAD then Spawning(n, {}) else Shaping)
    case Create(t, ok) =>
      var l := s.listener.(left := s.listener.left - 1);
      if ok then
        s.(listener := l.(born := l.born + {t}), workers := s.workers[t := Starting])
      else
        s.(listener := l)
    case LeaveInit => s.(listener := Shaping, count := Wrap(s.count + |s.listener.born|))
  }

  function NextPhase(q: Queue, p: Phase, e: WorkerEvent): Phase {
    match e
    case InitFailed => Leaving(false)
    case Announce => Idle
    case Get => (match GetSegment(q).1 case Blocked => Waiting case Taken(val) => Got(val))
    case Spurious => Woken
    case MarkBusy => if p.Got? && p.val >= 0 then Serving(p.val) else Leaving(true)
    case Close => Closed
    case MarkFree => Idle
    case Retire => Exited(p.Leaving? && p.ordered)
  }

  function StepWorker(s: State, t: nat, e: WorkerEvent): State
    requires t in s.workers && WorkerEnabled(s, s.workers[t], e)
  {
    var p := s.workers[t];
    var s' := s.(workers := s.workers[t := NextPhase(s.q, p, e)]);
    match e
    case InitFailed => s'
    case Announce => s'.(free := Wrap(s.free + 1))
    case Get =>
      var (q', r) := GetSegment(s.q);
      s'.(q := q', gets := if r.Taken? then s.gets + [r.val] else s.gets)
    case Spurious => s'
    case MarkBusy => s'.(free := Wrap(s.free - 1))
    case Close => s'.(open := s.open - {p.sock}, servedSocks := s.servedSocks + multiset{p.sock})
    case MarkFree => s'.(free := Wrap(s.free + 1))
    case Retire => s'.(count := Wrap(s.count - 1))
  }

  function Step(s: State, e: Event): State
    requires Enabled(s, e)
  {
    match e
    case Main(l) => StepListener(s, l)
    case Worker(t, w) => StepWorker(s, t, w)
  }

  /** The state in which main enters its loop: about to start the first group of threads. */
  function Initial(): State {
    State(Queue(MAXTHREAD + 1, [], 0), map[], 0, 0, Launching(INITIALTHREAD), {}, [], [],
          multiset{}, multiset{}, multiset{})
  }

  /** The state after a run of events from s, when each is enabled in turn. */
  ghost predicate Run(s: State, events: seq<Event>, s': State)
    decreases |events|
  {
    if events == [] then s' == s
    else Enabled(s, events[0]) && Run(Step(s, events[0]), events[1..], s')
  }

  ghost predicate Reachable(s: State) {
    exists events :: Run(Initial(), events, s)
  }
}
