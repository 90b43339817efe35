/**
 * The worker pool as a monitor. A step is what one thread does while it holds the mutex, or a
 * notification, which is sent after the mutex has been released.
 */
module ThreadPool {

  type TaskId = nat

  /**
   * Awake is a worker about to take the mutex and test the wait predicate: a new one, one that was
   * woken, and one that has just finished a task. Running names the task by its position among
   * the started tasks.
   */
  datatype Worker = Awake | Waiting | Running(ticket: nat) | Exited

  datatype Pool = Pool(
    workers: seq<Worker>,
    queue: seq<TaskId>,
    stop: bool,
    notifications: nat,        // notify_one calls that an enqueuer still has to make
    broadcast: bool,           // the destructor still has to call notify_all
    accepted: seq<TaskId>,     // history: what enqueue put into the queue
    started: seq<TaskId>,      // history: what workers took out of it
    finished: set<nat>)        // history: the positions of the started tasks that have finished

  datatype Event =
    | Enqueue(task: TaskId)
    | NotifyOne(worker: nat)
    | NotifyNobody
    | WakeSpuriously(worker: nat)
    | Check(worker: nat)
    | Finish(worker: nat)
    | Stop
    | NotifyAll

  function Start(n: nat): Pool {
    Pool(seq(n, i => Awake), [], false, 0, false, [], [], {})
  }

  predicate Is(p: Pool, i: nat, w: Worker) {
    i < |p.workers| && p.workers[i] == w
  }

  predicate Enabled(p: Pool, e: Event) {
    match e
    case Enqueue(_) => true
    case NotifyOne(i) => p.notifications > 0 && Is(p, i, Waiting)
    case NotifyNobody => p.notifications > 0 && Waiting !in p.workers
    case WakeSpuriously(i) => Is(p, i, Waiting)
    case Check(i) => Is(p, i, Awake)
    case Finish(i) => i < |p.workers| && p.workers[i].Running?
    case Stop => !p.stop
    case NotifyAll => p.broadcast
  }

  function WakeAll(ws: seq<Worker>): (r: seq<Worker>)
    ensures |r| == |ws|
    ensures forall i :: 0 <= i < |ws| ==> r[i] == if ws[i].Waiting? then Awake else ws[i]
  {
    seq(|ws|, i requires 0 <= i < |ws| => if ws[i].Waiting? then Awake else ws[i])
  }

  /** The worker holds the mutex and tests the predicate: it waits, exits, or takes the front task. */
  function CheckQueue(p: Pool, i: nat): Pool
    requires i < |p.workers|
  {
    if !p.stop && p.queue == [] then
      p.(workers := p.workers[i := Waiting])
    else if p.queue == [] then
      p.(workers := p.workers[i := Exited])
    else
      p.(workers := p.workers[i := Running(|p.started|)], queue := p.queue[1..], started := p.started + [p.queue[0]])
  }

  /** An event that is not enabled does not happen. */
  function Next(p: Pool, e: Event): Pool {
    if !Enabled(p, e) then
      p
    else
      match e
      case Enqueue(t) =>
        if p.stop then
          p
        else
          p.(queue := p.queue + [t], accepted := p.accepted + [t], notifications := p.notifications + 1)
      case NotifyOne(i) => p.(workers := p.workers[i := Awake], notifications := p.notifications - 1)
      case NotifyNobody => p.(notifications := p.notifications - 1)
      case WakeSpuriously(i) => p.(workers := p.workers[i := Awake])
      case Check(i) => CheckQueue(p, i)
      case Finish(i) => p.(workers := p.workers[i := Awake], finished := p.finished + {p.workers[i].ticket})
      case Stop => p.(stop := true, broadcast := true)
      case NotifyAll => p.(workers := WakeAll(p.workers), broadcast := false)
  }

  function Run(n: nat, es: seq<Event>): Pool {
    if es == [] then Start(n) else Next(Run(n, es[..|es| - 1]), es[|es| - 1])
  }

  /** The events from a state on. */
  function Continue(p: Pool, es: seq<Event>): Pool
    decreases |es|
  {
    if es == [] then p else Continue(Next(p, es[0]), es[1..])
  }

  // ---------- counting workers ----------

  datatype Kind = IsAwake | IsWaiting | IsRunning | IsExited

  function KindOf(w: Worker): Kind {
    match w
    case Awake => IsAwake
    case Waiting => IsWaiting
    case Running(_) => IsRunning
    case Exited => IsExited
  }

  function One(b: bool): nat {
    if b then 1 else 0
  }

  function Tally(ws: seq<Worker>, k: Kind): nat {
    if ws == [] then 0 else Tally(ws[..|ws| - 1], k) + One(KindOf(ws[|ws| - 1]) == k)
  }

  lemma {:induction false} TallyUpdate(ws: seq<Worker>, i: nat, w: Worker, k: Kind)
    requires i < |ws|
    ensures Tally(ws[i := w], k) + One(KindOf(ws[i]) == k) == Tally(ws, k) + One(KindOf(w) == k)
  {
    var init := ws[..|ws| - 1];
    if i == |ws| - 1 {
      assert ws[i := w][..|ws| - 1] == init;
    } else {
      assert ws[i := w][..|ws| - 1] == init[i := w];
      TallyUpdate(init, i, w, k);
    }
  }

  lemma {:induction false} TallyWakeAll(ws: seq<Worker>)
    ensures Tally(WakeAll(ws), IsWaiting) == 0
    ensures Tally(WakeAll(ws), IsAwake) == Tally(ws, IsAwake) + Tally(ws, IsWaiting)
    ensures Tally(WakeAll(ws), IsRunning) == Tally(ws, IsRunning)
    ensures Tally(WakeAll(ws), IsExited) == Tally(ws, IsExited)
  {
    if ws != [] {
      TallyWakeAll(ws[..|ws| - 1]);
      assert WakeAll(ws)[..|ws| - 1] == WakeAll(ws[..|ws| - 1]);
    }
  }

  /** A worker of a kind exists exactly when the tally is positive. */
  lemma {:induction false} TallyWitness(ws: seq<Worker>, k: Kind)
    ensures Tally(ws, k) > 0 <==> exists i :: 0 <= i < |ws| && KindOf(ws[i]) == k
  {
    if ws != [] {
      var init := ws[..|ws| - 1];
      TallyWitness(init, k);
      if KindOf(ws[|ws| - 1]) != k && exists i :: 0 <= i < |ws| && KindOf(ws[i]) == k {
        var i :| 0 <= i < |ws| && KindOf(ws[i]) == k;
        assert KindOf(init[i]) == k;
      }
      if Tally(init, k) > 0 {
        var i :| 0 <= i < |init| && KindOf(init[i]) == k;
        assert KindOf(ws[i]) == k;
      }
    }
  }

  lemma {:induction false} TallyTotal(ws: seq<Worker>)
    ensures Tally(ws, IsAwake) + Tally(ws, IsWaiting) + Tally(ws, IsRunning) + Tally(ws, IsExited) == |ws|
  {
    if ws != [] {
      TallyTotal(ws[..|ws| - 1]);
    }
  }

  // ---------- what every step keeps ----------

  /** If a worker waits, every queued task has a notification or an awake worker coming for it. */
  predicate WorkConserved(p: Pool) {
    Tally(p.workers, IsWaiting) > 0 ==> |p.queue| <= p.notifications + Tally(p.workers, IsAwake)
  }

  predicate IsBusyWith(p: Pool, k: nat) {
    exists i :: 0 <= i < |p.workers| && p.workers[i] == Running(k)
  }

  /**
   * Tasks start in the order they were accepted, each once, and every started task is running or
   * finished, not both.
   */
  predicate InOrder(p: Pool) {
    && p.accepted == p.started + p.queue
    && (forall k :: k in p.finished ==> k < |p.started|)
    && (forall i :: 0 <= i < |p.workers| && p.workers[i].Running?
          ==> p.workers[i].ticket < |p.started| && p.workers[i].ticket !in p.finished)
    && (forall i, j :: 0 <= i < j < |p.workers| && p.workers[i].Running? ==> p.workers[i] != p.workers[j])
    && (forall k :: 0 <= k < |p.started| && k !in p.finished ==> IsBusyWith(p, k))
  }

  /** After stop, a worker still waits only while the broadcast is pending; none exits before the queue is drained. */
  predicate ShutdownSafe(p: Pool) {
    && (p.stop && Tally(p.workers, IsWaiting) > 0 ==> p.broadcast)
    && (p.broadcast ==> p.stop)
    && (Tally(p.workers, IsExited) > 0 ==> p.stop && p.queue == [])
  }

  predicate Invariant(p: Pool) {
    WorkConserved(p) && InOrder(p) && ShutdownSafe(p)
  }

  lemma {:induction false} StartTally(n: nat, k: Kind)
    ensures Tally(Start(n).workers, k) == if k == IsAwake then n else 0
    decreases n
  {
    if n > 0 {
      StartTally(n - 1, k);
      assert Start(n).workers[..n - 1] == Start(n - 1).workers;
    }
  }

  lemma {:induction false} MoveWorker(p: Pool, i: nat, w: Worker)
    requires i < |p.workers|
    ensures Tally(p.workers[i := w], IsAwake) + One(p.workers[i].Awake?) == Tally(p.workers, IsAwake) + One(w.Awake?)
    ensures Tally(p.workers[i := w], IsWaiting) + One(p.workers[i].Waiting?)
            == Tally(p.workers, IsWaiting) + One(w.Waiting?)
    ensures Tally(p.workers[i := w], IsRunning) + One(p.workers[i].Running?)
            == Tally(p.workers, IsRunning) + One(w.Running?)
    ensures Tally(p.workers[i := w], IsExited) + One(p.workers[i].Exited?)
            == Tally(p.workers, IsExited) + One(w.Exited?)
  {
    TallyUpdate(p.workers, i, w, IsAwake);
    TallyUpdate(p.workers, i, w, IsWaiting);
    TallyUpdate(p.workers, i, w, IsRunning);
    TallyUpdate(p.workers, i, w, IsExited);
  }

  lemma {:induction false} CountsKept(p: Pool, e: Event)
    requires WorkConserved(p) && ShutdownSafe(p) && Enabled(p, e)
    ensures WorkConserved(Next(p, e)) && ShutdownSafe(Next(p, e))
  {
    match e {
      case Enqueue(t) =>
      case NotifyOne(i) => MoveWorker(p, i, Awake);
      case NotifyNobody => NobodyWaits(p);
      case WakeSpuriously(i) => MoveWorker(p, i, Awake);
      case Check(i) => MoveWorker(p, i, CheckQueue(p, i).workers[i]);
      case Finish(i) => MoveWorker(p, i, Awake);
      case Stop =>
      case NotifyAll => TallyWakeAll(p.workers);
    }
  }

  /** Moving a worker that runs nothing before or after leaves the running tasks alone. */
  lemma {:induction false} IdleMoveKeepsOrder(p: Pool, p': Pool)
    requires InOrder(p) && |p.workers| == |p'.workers|
    requires p'.accepted == p'.started + p'.queue && p'.started == p.started && p'.finished == p.finished
    requires forall i :: 0 <= i < |p.workers|
              ==> p.workers[i] == p'.workers[i] || (!p.workers[i].Running? && !p'.workers[i].Running?)
    ensures InOrder(p')
  {
    forall k | 0 <= k < |p'.started| && k !in p'.finished
      ensures IsBusyWith(p', k)
    {
      var i :| 0 <= i < |p.workers| && p.workers[i] == Running(k);
      assert p'.workers[i] == Running(k);
    }
  }

  lemma {:induction false} TakeKeepsOrder(p: Pool, i: nat)
    requires InOrder(p) && Is(p, i, Awake) && p.queue != []
    ensures InOrder(CheckQueue(p, i))
  {
    var p' := CheckQueue(p, i);
    assert p.queue == [p.queue[0]] + p.queue[1..];
    forall k | 0 <= k < |p'.started| && k !in p'.finished
      ensures IsBusyWith(p', k)
    {
      if k < |p.started| {
        var j :| 0 <= j < |p.workers| && p.workers[j] == Running(k);
        assert p'.workers[j] == Running(k);
      } else {
        assert p'.workers[i] == Running(k);
      }
    }
  }

  lemma {:induction false} FinishKeepsOrder(p: Pool, i: nat)
    requires InOrder(p) && i < |p.workers| && p.workers[i].Running?
    ensures InOrder(Next(p, Finish(i)))
  {
    var p' := Next(p, Finish(i));
    forall k | 0 <= k < |p'.started| && k !in p'.finished
      ensures IsBusyWith(p', k)
    {
      var j :| 0 <= j < |p.workers| && p.workers[j] == Running(k);
      assert p'.workers[j] == Running(k);
    }
  }

  lemma {:induction false} OrderKept(p: Pool, e: Event)
    requires InOrder(p) && Enabled(p, e)
    ensures InOrder(Next(p, e))
  {
    match e {
      case Check(i) =>
        if p.queue != [] {
          TakeKeepsOrder(p, i);
        } else {
          IdleMoveKeepsOrder(p, Next(p, e));
        }
      case Finish(i) => FinishKeepsOrder(p, i);
      case _ => IdleMoveKeepsOrder(p, Next(p, e));
    }
  }

  lemma {:induction false} StepKeeps(p: Pool, e: Event)
    requires Invariant(p)
    ensures Invariant(Next(p, e)) && |Next(p, e).workers| == |p.workers|
  {
    if Enabled(p, e) {
      CountsKept(p, e);
      OrderKept(p, e);
    }
  }

  lemma {:induction false} NobodyWaits(p: Pool)
    requires Waiting !in p.workers
    ensures Tally(p.workers, IsWaiting) == 0
  {
    TallyWitness(p.workers, IsWaiting);
  }

  /**
   * In every reachable state: no wakeup is lost, whatever spurious wakeups there are and whichever
   * busy worker gets to a task first; tasks start once and in order; shutdown drains the queue.
   */
  lemma {:induction false} Reachable(n: nat, es: seq<Event>)
    ensures Invariant(Run(n, es)) && |Run(n, es).workers| == n
  {
    if es == [] {
      StartTally(n, IsWaiting);
      StartTally(n, IsExited);
    } else {
      Reachable(n, es[..|es| - 1]);
      StepKeeps(Run(n, es[..|es| - 1]), es[|es| - 1]);
    }
  }

  // ---------- what is submitted is accepted ----------

  /** The tasks enqueued before the first stop, in order. */
  function Submitted(es: seq<Event>): seq<TaskId> {
    if es == [] then
      []
    else
      var init, last := es[..|es| - 1], es[|es| - 1];
      Submitted(init) + if last.Enqueue? && Stop !in init then [last.task] else []
  }

  lemma {:induction false} AcceptStep(p: Pool, e: Event)
    ensures Next(p, e).stop <==> p.stop || e == Stop
    ensures Next(p, e).accepted == p.accepted + if e.Enqueue? && !p.stop then [e.task] else []
  {
  }

  /** The pool is stopped once Stop has happened, and has accepted exactly what was submitted before. */
  lemma {:induction false} SubmittedIsAccepted(n: nat, es: seq<Event>)
    ensures Run(n, es).stop <==> Stop in es
    ensures Run(n, es).accepted == Submitted(es)
    decreases |es|
  {
    if es != [] {
      var init, last := es[..|es| - 1], es[|es| - 1];
      SubmittedIsAccepted(n, init);
      AcceptStep(Run(n, init), last);
      assert es == init + [last];
    }
  }

  /** What each event does to the workers and the queue, where it can happen. */
  lemma {:induction false} EventsHappen(p: Pool, i: nat, task: TaskId)
    requires i < |p.workers|
    ensures !p.stop ==> Next(p, Enqueue(task)).queue == p.queue + [task]
                        && Next(p, Enqueue(task)).notifications == p.notifications + 1
    ensures p.stop ==> Next(p, Enqueue(task)) == p
    ensures p.workers[i] == Waiting ==> Next(p, WakeSpuriously(i)) == p.(workers := p.workers[i := Awake])
    ensures p.workers[i] == Waiting && p.notifications > 0 ==>
              Next(p, NotifyOne(i)) == p.(workers := p.workers[i := Awake], notifications := p.notifications - 1)
    ensures p.notifications > 0 && Waiting !in p.workers ==>
              Next(p, NotifyNobody) == p.(notifications := p.notifications - 1)
    ensures p.workers[i] == Awake && p.queue != [] ==>
              && Next(p, Check(i)).workers == p.workers[i := Running(|p.started|)]
              && Next(p, Check(i)).queue == p.queue[1..] && Next(p, Check(i)).started == p.started + [p.queue[0]]
    ensures p.workers[i] == Awake && p.queue == [] ==>
              Next(p, Check(i)) == p.(workers := p.workers[i := if p.stop then Exited else Waiting])
    ensures p.workers[i].Running? ==>
              && Next(p, Finish(i)).workers == p.workers[i := Awake] && Next(p, Finish(i)).queue == p.queue
              && Next(p, Finish(i)).finished == p.finished + {p.workers[i].ticket}
    ensures !p.stop ==> Next(p, Stop) == p.(stop := true, broadcast := true)
    ensures p.broadcast && p.workers[i] == Waiting ==> Next(p, NotifyAll).workers[i] == Awake
    ensures p.broadcast && p.workers[i] != Waiting ==> Next(p, NotifyAll).workers[i] == p.workers[i]
  {
  }

  /** An event by which the pool itself makes progress. */
  predicate Internal(e: Event) {
    e.NotifyOne? || e.Check? || e.Finish? || e.NotifyAll?
  }

  ghost predicate CanProgress(p: Pool) {
    exists e :: Internal(e) && Enabled(p, e)
  }

  lemma {:induction false} KindCanProgress(p: Pool, k: Kind)
    requires Tally(p.workers, k) > 0
    requires k == IsAwake || k == IsRunning || (k == IsWaiting && p.notifications > 0)
    ensures CanProgress(p)
  {
    TallyWitness(p.workers, k);
    var i :| 0 <= i < |p.workers| && KindOf(p.workers[i]) == k;
    var e := if k == IsAwake then Check(i) else if k == IsRunning then Finish(i) else NotifyOne(i);
    assert Internal(e) && Enabled(p, e);
  }

  /** A queued task is never stuck: as long as there is one, the pool can move without outside help. */
  lemma {:induction false} QueueNeverStuck(n: nat, es: seq<Event>)
    requires n > 0 && Run(n, es).queue != []
    ensures CanProgress(Run(n, es))
  {
    var p := Run(n, es);
    Reachable(n, es);
    TallyTotal(p.workers);
    if Tally(p.workers, IsAwake) > 0 {
      KindCanProgress(p, IsAwake);
    } else if Tally(p.workers, IsRunning) > 0 {
      KindCanProgress(p, IsRunning);
    } else {
      KindCanProgress(p, IsWaiting);
    }
  }

  // ---------- before stop: every accepted task is started and finished ----------

  /** A step of the pool's own threads: a worker's section, a finished task, or a notification. */
  predicate Own(e: Event) {
    e.NotifyOne? || e.NotifyNobody? || e.Check? || e.Finish?
  }

  /** What the pool still has to do for the tasks it has: start, finish and recheck, and send notifications. */
  function Pending(p: Pool): nat {
    2 * |p.queue| + 2 * Tally(p.workers, IsRunning) + Tally(p.workers, IsAwake) + 2 * p.notifications
  }

  /** What an event from outside may add to it. */
  function Load(e: Event): nat {
    if e.Enqueue? then 4 else if e.WakeSpuriously? then 1 else 0
  }

  function LoadOf(es: seq<Event>): nat
    decreases |es|
  {
    if es == [] then 0 else Load(es[0]) + LoadOf(es[1..])
  }

  function OwnSteps(p: Pool, es: seq<Event>): nat
    decreases |es|
  {
    if es == [] then 0 else One(Enabled(p, es[0]) && Own(es[0])) + OwnSteps(Next(p, es[0]), es[1..])
  }

  /** Every step of the pool's own leaves less to do. */
  lemma {:induction false} OwnStepPays(p: Pool, e: Event)
    requires Invariant(p) && !p.stop
    ensures Pending(Next(p, e)) + One(Enabled(p, e) && Own(e)) <= Pending(p) + Load(e)
  {
    if Enabled(p, e) {
      match e {
        case Enqueue(t) =>
        case NotifyOne(i) => MoveWorker(p, i, Awake);
        case NotifyNobody =>
        case WakeSpuriously(i) => MoveWorker(p, i, Awake);
        case Check(i) => MoveWorker(p, i, CheckQueue(p, i).workers[i]);
        case Finish(i) => MoveWorker(p, i, Awake);
        case Stop =>
        case NotifyAll => assert false;
      }
    }
  }

  lemma {:induction false} StopStays(p: Pool, es: seq<Event>)
    requires p.stop
    ensures Continue(p, es).stop
    decreases |es|
  {
    if es != [] {
      StopStays(Next(p, es[0]), es[1..]);
    }
  }

  /**
   * Dispatch is bounded: as long as the pool is not stopped, its own steps number at most what was
   * pending, four for each task accepted on the way and one for each spurious wakeup.
   */
  lemma {:induction false} DispatchBounded(p: Pool, es: seq<Event>)
    requires Invariant(p) && !Continue(p, es).stop
    ensures OwnSteps(p, es) + Pending(Continue(p, es)) <= Pending(p) + LoadOf(es)
    decreases |es|
  {
    if es != [] {
      if p.stop {
        StopStays(p, es);
      }
      StepKeeps(p, es[0]);
      OwnStepPays(p, es[0]);
      DispatchBounded(Next(p, es[0]), es[1..]);
    }
  }

  lemma {:induction false} BusyAtMostAll(p: Pool)
    ensures Pending(p) <= 2 * |p.queue| + 2 * |p.workers| + 2 * p.notifications
  {
    TallyTotal(p.workers);
  }

  lemma {:induction false} QuietOutside(es: seq<Event>)
    requires forall e :: e in es ==> !e.Enqueue? && !e.WakeSpuriously?
    ensures LoadOf(es) == 0
    decreases |es|
  {
    if es != [] {
      assert es[0] in es;
      QuietOutside(es[1..]);
    }
  }

  lemma {:induction false} StopsOnlyByStop(p: Pool, es: seq<Event>)
    requires !p.stop && Stop !in es
    ensures !Continue(p, es).stop
    decreases |es|
  {
    if es != [] {
      AcceptStep(p, es[0]);
      StopsOnlyByStop(Next(p, es[0]), es[1..]);
    }
  }

  /** Left alone, the pool takes at most two steps for each queued task, worker and pending notification. */
  lemma {:induction false} UndisturbedBounded(p: Pool, es: seq<Event>)
    requires Invariant(p) && !p.stop
    requires forall e :: e in es ==> !e.Enqueue? && !e.WakeSpuriously? && !e.Stop?
    ensures OwnSteps(p, es) <= 2 * |p.queue| + 2 * |p.workers| + 2 * p.notifications
  {
    QuietOutside(es);
    StopsOnlyByStop(p, es);
    DispatchBounded(p, es);
    BusyAtMostAll(p);
  }

  /** Every worker waits, and no notification is on its way. */
  predicate Quiet(p: Pool) {
    p.notifications == 0 && forall i :: 0 <= i < |p.workers| ==> p.workers[i] == Waiting
  }

  lemma {:induction false} NoneExited(n: nat, es: seq<Event>, i: nat)
    requires Stop !in es && i < n
    ensures i < |Run(n, es).workers| && Run(n, es).workers[i] != Exited
  {
    Reachable(n, es);
    SubmittedIsAccepted(n, es);
    TallyWitness(Run(n, es).workers, IsExited);
    assert KindOf(Run(n, es).workers[i]) != IsExited;
  }

  /** A pool that is not stopped has no step of its own left exactly when it is quiet. */
  lemma {:induction false} QuietExactly(n: nat, es: seq<Event>)
    requires n > 0 && Stop !in es
    ensures Quiet(Run(n, es)) <==> forall e :: Own(e) ==> !Enabled(Run(n, es), e)
  {
    var p := Run(n, es);
    Reachable(n, es);
    if forall e :: Own(e) ==> !Enabled(p, e) {
      forall i | 0 <= i < |p.workers|
        ensures p.workers[i] == Waiting
      {
        NoneExited(n, es, i);
        assert Own(Check(i)) && Own(Finish(i));
      }
      assert Own(NotifyOne(0)) && Is(p, 0, Waiting);
    }
    if Quiet(p) {
      forall e | Own(e)
        ensures !Enabled(p, e)
      {
      }
    }
  }

  /** When the pool is quiet, every task submitted has started in order and finished. */
  lemma {:induction false} QuietMeansDone(n: nat, es: seq<Event>)
    requires n > 0 && Stop !in es
    requires Run(n, es).notifications == 0
    requires forall i :: 0 <= i < |Run(n, es).workers| ==> Run(n, es).workers[i] == Waiting
    ensures var p := Run(n, es);
            p.queue == [] && p.started == Submitted(es) && forall k :: 0 <= k < |Submitted(es)| ==> k in p.finished
  {
    var p := Run(n, es);
    Reachable(n, es);
    SubmittedIsAccepted(n, es);
    AllWaiting(p.workers);
    assert forall k :: !IsBusyWith(p, k);
  }

  lemma {:induction false} AllWaiting(ws: seq<Worker>)
    requires forall i :: 0 <= i < |ws| ==> ws[i] == Waiting
    ensures Tally(ws, IsWaiting) == |ws| && Tally(ws, IsAwake) == 0
    decreases |ws|
  {
    if ws != [] {
      AllWaiting(ws[..|ws| - 1]);
    }
  }

  // ---------- shutdown ----------

  /** What is left to do once the destructor has set stop. */
  function Remaining(p: Pool): nat
    requires Tally(p.workers, IsExited) <= |p.workers|
  {
    2 * |p.queue| + Tally(p.workers, IsRunning) + Tally(p.workers, IsWaiting)
    + (|p.workers| - Tally(p.workers, IsExited)) + p.notifications + One(p.broadcast)
  }

  lemma {:induction false} ExitedAtMostAll(p: Pool)
    ensures Tally(p.workers, IsExited) <= |p.workers|
  {
    TallyTotal(p.workers);
  }

  /** After stop nothing is accepted any more, and every step other than a refused enqueue leaves less to do. */
  lemma {:induction false} ShutdownDecreases(p: Pool, e: Event)
    requires Invariant(p) && p.stop && Enabled(p, e)
    ensures Next(p, e).stop && Next(p, e).accepted == p.accepted
    ensures Tally(p.workers, IsExited) <= |p.workers|
    ensures Tally(Next(p, e).workers, IsExited) <= |Next(p, e).workers|
    ensures if e.Enqueue? then Next(p, e) == p else Remaining(Next(p, e)) < Remaining(p)
  {
    ExitedAtMostAll(p);
    ExitedAtMostAll(Next(p, e));
    match e {
      case Enqueue(t) =>
      case NotifyOne(i) => MoveWorker(p, i, Awake);
      case NotifyNobody =>
      case WakeSpuriously(i) => MoveWorker(p, i, Awake);
      case Check(i) => MoveWorker(p, i, CheckQueue(p, i).workers[i]);
      case Finish(i) => MoveWorker(p, i, Awake);
      case Stop =>
      case NotifyAll => TallyWakeAll(p.workers);
    }
  }

  /** The joins cannot hang: after stop, as long as a worker has not exited, the pool can move. */
  lemma {:induction false} ShutdownNeverStuck(n: nat, es: seq<Event>)
    requires Run(n, es).stop && Tally(Run(n, es).workers, IsExited) < n
    ensures CanProgress(Run(n, es))
  {
    var p := Run(n, es);
    Reachable(n, es);
    TallyTotal(p.workers);
    if Tally(p.workers, IsAwake) > 0 {
      KindCanProgress(p, IsAwake);
    } else if Tally(p.workers, IsRunning) > 0 {
      KindCanProgress(p, IsRunning);
    } else {
      assert Enabled(p, NotifyAll);
    }
  }

  /** How many events of a run took effect. */
  function Effective(p: Pool, es: seq<Event>): nat
    decreases |es|
  {
    if es == [] then 0 else One(Enabled(p, es[0]) && !es[0].Enqueue?) + Effective(Next(p, es[0]), es[1..])
  }

  /**
   * Shutdown completes: from any reachable state with stop set, a continuation can contain at most
   * Remaining effective steps, and it accepts nothing.
   */
  lemma {:induction false} ShutdownBounded(p: Pool, es: seq<Event>)
    requires Invariant(p) && p.stop
    ensures Invariant(Continue(p, es)) && Continue(p, es).stop && Continue(p, es).accepted == p.accepted
    ensures Tally(p.workers, IsExited) <= |p.workers| && Effective(p, es) <= Remaining(p)
    decreases |es|
  {
    ExitedAtMostAll(p);
    if es != [] {
      StepKeeps(p, es[0]);
      if Enabled(p, es[0]) {
        ShutdownDecreases(p, es[0]);
      }
      ShutdownBounded(Next(p, es[0]), es[1..]);
    }
  }

  lemma {:induction false} AllExited(ws: seq<Worker>)
    requires forall i :: 0 <= i < |ws| ==> ws[i] == Exited
    ensures Tally(ws, IsExited) == |ws| && Tally(ws, IsRunning) == 0
    decreases |ws|
  {
    if ws != [] {
      AllExited(ws[..|ws| - 1]);
    }
  }

  /** When every worker has exited, every task submitted before stop has started in order and finished. */
  lemma {:induction false} ExitedMeansDrained(n: nat, es: seq<Event>)
    requires n > 0 && forall i :: 0 <= i < |Run(n, es).workers| ==> Run(n, es).workers[i] == Exited
    ensures var p := Run(n, es);
            p.queue == [] && p.started == Submitted(es) && forall k :: 0 <= k < |Submitted(es)| ==> k in p.finished
  {
    var p := Run(n, es);
    Reachable(n, es);
    SubmittedIsAccepted(n, es);
    AllExited(p.workers);
    TallyTotal(p.workers);
    forall k | 0 <= k < |p.started|
      ensures k in p.finished
    {
      if IsBusyWith(p, k) {
        TallyWitness(p.workers, IsRunning);
      }
    }
  }

  // ---------- thread_pool as an object ----------

  /** One method for each section of code that runs under the mutex, and one for each notification. */
  class Monitor {
    var workers: seq<Worker>
    var tasks: seq<TaskId>
    var stop: bool
    ghost var notifications: nat
    ghost var broadcast: bool
    ghost var accepted: seq<TaskId>
    ghost var started: seq<TaskId>
    ghost var finished: set<nat>
    var tickets: nat

    ghost function View(): Pool
      reads this
    {
      Pool(workers, tasks, stop, notifications, broadcast, accepted, started, finished)
    }

    ghost predicate Valid()
      reads this
    {
      Invariant(View()) && tickets == |started|
    }

    constructor (n: nat)
      ensures Valid() && View() == Start(n)
    {
      workers, tasks, stop, tickets := seq(n, i => Awake), [], false, 0;
      notifications, broadcast, accepted, started, finished := 0, false, [], [], {};
      new;
      Reachable(n, []);
    }

    /** enqueue up to the release of the mutex; a stopped pool refuses the task. */
    method Enqueue(task: TaskId) returns (taken: bool)
      requires Valid()
      modifies this
      ensures Valid() && View() == Next(old(View()), Event.Enqueue(task)) && taken == !old(stop)
      ensures tasks == (if taken then old(tasks) + [task] else old(tasks))
      ensures accepted == (if taken then old(accepted) + [task] else old(accepted))
    {
      StepKeeps(View(), Event.Enqueue(task));
      if stop {
        return false;
      }
      tasks := tasks + [task];
      accepted, notifications := accepted + [task], notifications + 1;
      return true;
    }

    /** The worker tests the wait predicate; it gets a task, or waits, or returns. */
    method TakeOrWait(i: nat) returns (task: seq<TaskId>)
      requires Valid() && Is(View(), i, Awake)
      modifies this
      ensures Valid() && View() == Next(old(View()), Check(i))
      ensures task == if old(tasks) == [] then [] else [old(tasks)[0]]
    {
      StepKeeps(View(), Check(i));
      if !stop && tasks == [] {
        workers := workers[i := Waiting];
        return [];
      }
      if stop && tasks == [] {
        workers := workers[i := Exited];
        return [];
      }
      task := [tasks[0]];
      started := started + [tasks[0]];
      workers := workers[i := Running(tickets)];
      tickets := tickets + 1;
      tasks := tasks[1..];
    }

    method TaskDone(i: nat)
      requires Valid() && i < |workers| && workers[i].Running?
      modifies this
      ensures Valid() && View() == Next(old(View()), Finish(i))
    {
      StepKeeps(View(), Finish(i));
      finished := finished + {workers[i].ticket};
      workers := workers[i := Awake];
    }

    /** notify_one when this worker is the one chosen. */
    method Notify(i: nat)
      requires Valid() && notifications > 0 && Is(View(), i, Waiting)
      modifies this
      ensures Valid() && View() == Next(old(View()), NotifyOne(i))
    {
      StepKeeps(View(), NotifyOne(i));
      workers := workers[i := Awake];
      notifications := notifications - 1;
    }

    /** The destructor's first section. */
    method BeginShutdown()
      requires Valid() && !stop
      modifies this
      ensures Valid() && View() == Next(old(View()), Stop)
    {
      StepKeeps(View(), Stop);
      stop := true;
      broadcast := true;
    }

    /** The destructor's notify_all. */
    method WakeEverybody()
      requires Valid() && broadcast
      modifies this
      ensures Valid() && View() == Next(old(View()), NotifyAll)
    {
      StepKeeps(View(), NotifyAll);
      for i := 0 to |workers|
        modifies this`workers
        invariant |workers| == |old(workers)|
        invariant forall j :: 0 <= j < i ==> workers[j] == WakeAll(old(workers))[j]
        invariant forall j :: i <= j < |workers| ==> workers[j] == old(workers)[j]
      {
        if workers[i].Waiting? {
          workers := workers[i := Awake];
        }
      }
      broadcast := false;
      assert workers == WakeAll(old(workers));
    }
  }
}
