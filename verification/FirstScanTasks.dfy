/**
 * first_scan as it really runs: one pooled task for each region, all of them allocating from and
 * writing into the same snapshot file, in any interleaving.
 */
module FirstScanTasks {
  import opened Bytes
  import opened Comparator
  import opened ListTheorems
  import opened Refusals
  import opened ScanModel
  import opened SnapshotStore

  /**
   * Unserved is a task that got no block. Reading names the task's block and how many bytes of
   * the target's memory have been copied into it.
   */
  datatype Task =
    | Queued
    | Unserved
    | Reading(block: nat, done: nat)
    | Done(block: nat, valid: bool, entries: seq<Entry>)

  /** What all tasks are given. */
  datatype Job = Job(regions: seq<Region>, target: Target, query: Query)

  datatype State = State(store: Store, tasks: seq<Task>)

  /**
   * The next move of one task; `stop` lets a read that is going to fail stop early, and `denied` is the
   * system's answer if the file has to grow: it neither extends nor maps it.
   */
  datatype Move = Move(task: nat, stop: bool, denied: bool)

  /** The file may already hold the snapshots of earlier scans. */
  function Initial(job: Job, store: Store): State {
    State(store, seq(|job.regions|, i => Queued))
  }

  ghost predicate InJob(job: Job) {
    forall i :: 0 <= i < |job.regions| ==> job.regions[i].size > 0
  }

  /** The task's block is allocated and as long as its region. */
  predicate Owns(st: State, job: Job, i: nat, block: nat)
    requires Valid(st.store) && i < |job.regions|
  {
    block < |st.store.blocks| && st.store.blocks[block].length == job.regions[i].size
  }

  function BlockOf(task: Task): int {
    match task
    case Queued => -1
    case Unserved => -1
    case Reading(b, _) => b
    case Done(b, _, _) => b
  }

  /** What is true of one task, whatever the others do. */
  predicate TaskOk(st: State, job: Job, i: nat)
    requires Valid(st.store) && i < |job.regions| && i < |st.tasks|
  {
    var r := job.regions[i];
    match st.tasks[i]
    case Queued => true
    case Unserved => true
    case Reading(b, done) =>
      Owns(st, job, i, b) && done <= r.size && Block(st.store, b)[..done] == ReadRegion(job.target, r)[..done]
    case Done(b, valid, entries) =>
      && Owns(st, job, i, b)
      && (if valid then [Scan(r.base, Block(st.store, b), job.query.kind, entries)] else [])
        == ScanRegion(r, job.target, job.query)
  }

  ghost predicate Inv(st: State, job: Job) {
    && InJob(job)
    && Valid(st.store)
    && |st.tasks| == |job.regions|
    && (forall i :: 0 <= i < |st.tasks| ==> TaskOk(st, job, i))
    && (forall i, j :: 0 <= i < j < |st.tasks| && BlockOf(st.tasks[i]) == BlockOf(st.tasks[j])
          ==> BlockOf(st.tasks[i]) == -1)
  }

  /** The verdict of a finished read: the search runs over the block as it reads in the file now. */
  function Finish(st: State, job: Job, i: nat): Task
    requires Valid(st.store) && i < |st.tasks| == |job.regions| && st.tasks[i].Reading?
    requires Owns(st, job, i, st.tasks[i].block)
  {
    var r, b := job.regions[i], st.tasks[i].block;
    if !job.target.readable(r.base) then
      Done(b, false, [])
    else
      var found := ScanBytes(r.base, Block(st.store, b), job.query);
      if found == [] then Done(b, false, []) else Done(b, true, found[0].entries)
  }

  /** One step of one task: reserve the block, copy one byte into it, or finish. */
  ghost function Next(st: State, job: Job, m: Move): (st': State)
    requires Inv(st, job)
  {
    if m.task >= |st.tasks| then
      st
    else
      var r := job.regions[m.task];
      assert TaskOk(st, job, m.task);
      match st.tasks[m.task]
      case Queued =>
        if m.denied && st.store.file.offset + r.size > st.store.file.size then
          State(st.store, st.tasks[m.task := Unserved])
        else
          State(Apply(st.store, Alloc(Zeros(r.size))), st.tasks[m.task := Reading(|st.store.blocks|, 0)])
      case Reading(b, done) =>
        if done < r.size && !(m.stop && !job.target.readable(r.base)) then
          State(Apply(st.store, Poke(b, done, [job.target.memory(r.base + done)])),
                st.tasks[m.task := Reading(b, done + 1)])
        else
          State(st.store, st.tasks[m.task := Finish(st, job, m.task)])
      case Unserved => st
      case Done(_, _, _) => st
  }

  /** A store step that leaves the task's block as it was leaves the task's claim as it was. */
  lemma {:induction false} OthersUntouched(st: State, st': State, job: Job, i: nat)
    requires Valid(st.store) && Valid(st'.store) && i < |job.regions| && i < |st.tasks| == |st'.tasks|
    requires TaskOk(st, job, i) && st'.tasks[i] == st.tasks[i]
    requires |st.store.blocks| <= |st'.store.blocks|
    requires BlockOf(st.tasks[i]) >= 0 && BlockOf(st.tasks[i]) < |st.store.blocks|
             ==> Contents(st'.store)[BlockOf(st.tasks[i])] == Contents(st.store)[BlockOf(st.tasks[i])]
    ensures TaskOk(st', job, i)
  {
    var b := BlockOf(st.tasks[i]);
    if 0 <= b < |st.store.blocks| {
      assert Block(st'.store, b) == Contents(st'.store)[b] == Contents(st.store)[b] == Block(st.store, b);
    }
  }

  /** A denied growth leaves the file as it was, so the store keeps all its blocks. */
  lemma {:induction false} DeniedChangesNothing(s: Store, n: nat)
    requires Valid(s) && s.file.offset + n > s.file.size
    ensures WriteBlock(s.file, Zeros(n), Growth(false, false)) == (s.file, Failed)
  {
  }

  lemma {:induction false} RefuseKeeps(st: State, job: Job, i: nat)
    requires Inv(st, job) && i < |st.tasks| && st.tasks[i].Queued?
    ensures Inv(State(st.store, st.tasks[i := Unserved]), job)
  {
    var st' := State(st.store, st.tasks[i := Unserved]);
    forall j | 0 <= j < |st.tasks|
      ensures TaskOk(st', job, j)
    {
      assert TaskOk(st, job, j);
      if j != i {
        OthersUntouched(st, st', job, j);
      }
    }
  }

  lemma {:induction false} ReserveKeeps(st: State, job: Job, i: nat)
    requires Inv(st, job) && i < |st.tasks| && st.tasks[i].Queued?
    ensures Inv(Next(st, job, Move(i, false, false)), job)
  {
    var st' := Next(st, job, Move(i, false, false));
    var data := Zeros(job.regions[i].size);
    AllocRefines(st.store, data);
    var b := |st.store.blocks|;
    assert Contents(st'.store)[b] == data;
    forall j | 0 <= j < |st.tasks|
      ensures TaskOk(st', job, j) && (j != i ==> BlockOf(st'.tasks[j]) < b)
    {
      assert TaskOk(st, job, j);
      if j != i {
        OthersUntouched(st, st', job, j);
      }
    }
  }

  /** A task does not notice what is written into another task's block. */
  lemma {:induction false} UntouchedByPoke(st: State, st': State, job: Job, j: nat, b: nat, bytes: seq<Byte>)
    requires Valid(st.store) && Valid(st'.store) && j < |job.regions| && j < |st.tasks| == |st'.tasks|
    requires TaskOk(st, job, j) && st'.tasks[j] == st.tasks[j] && BlockOf(st.tasks[j]) != b
    requires b < |st.store.blocks| && Contents(st'.store) == Contents(st.store)[b := bytes]
    ensures TaskOk(st', job, j)
  {
    OthersUntouched(st, st', job, j);
  }

  lemma {:induction false} CopyKeeps(st: State, job: Job, i: nat, stop: bool)
    requires Inv(st, job) && i < |st.tasks| && st.tasks[i].Reading?
    requires st.tasks[i].done < job.regions[i].size && !(stop && !job.target.readable(job.regions[i].base))
    ensures Inv(Next(st, job, Move(i, stop, false)), job)
  {
    var st', r, b, done := Next(st, job, Move(i, stop, false)), job.regions[i], st.tasks[i].block, st.tasks[i].done;
    assert TaskOk(st, job, i);
    var data := [job.target.memory(r.base + done)];
    PokeRefines(st.store, b, done, data);
    OverlayOne(Block(st.store, b), ReadRegion(job.target, r), done);
    assert Block(st'.store, b) == Contents(st'.store)[b];
    assert TaskOk(st', job, i);
    forall j | 0 <= j < |st.tasks| && j != i
      ensures TaskOk(st', job, j)
    {
      assert TaskOk(st, job, j) && BlockOf(st.tasks[j]) != b;
      UntouchedByPoke(st, st', job, j, b, Overlay(Contents(st.store)[b], done, data));
    }
  }

  lemma {:induction false} OverlayOne(have: seq<Byte>, want: seq<Byte>, done: nat)
    requires |have| == |want| && done < |want| && have[..done] == want[..done]
    ensures Overlay(have, done, [want[done]])[..done + 1] == want[..done + 1]
  {
    assert want[..done + 1] == want[..done] + [want[done]];
  }

  lemma {:induction false} FinishKeeps(st: State, job: Job, i: nat, stop: bool)
    requires Inv(st, job) && i < |st.tasks| && st.tasks[i].Reading?
    requires st.tasks[i].done >= job.regions[i].size || (stop && !job.target.readable(job.regions[i].base))
    ensures Inv(Next(st, job, Move(i, stop, false)), job)
  {
    var st', r, b := Next(st, job, Move(i, stop, false)), job.regions[i], st.tasks[i].block;
    assert TaskOk(st, job, i);
    if job.target.readable(r.base) {
      assert Block(st.store, b) == ReadRegion(job.target, r);
    }
    forall j | 0 <= j < |st.tasks|
      ensures TaskOk(st', job, j)
    {
      assert TaskOk(st, job, j);
      if j != i {
        OthersUntouched(st, st', job, j);
      }
    }
  }

  /** A queued task is refused or reserves its block. */
  lemma {:induction false} QueuedNext(st: State, job: Job, m: Move)
    requires Inv(st, job) && m.task < |st.tasks| && st.tasks[m.task].Queued?
    ensures Next(st, job, m) == Next(st, job, Move(m.task, false, false))
            || Next(st, job, m) == State(st.store, st.tasks[m.task := Unserved])
  {
  }

  lemma {:induction false} NextKeeps(st: State, job: Job, m: Move)
    requires Inv(st, job)
    ensures Inv(Next(st, job, m), job)
  {
    if m.task < |st.tasks| {
      match st.tasks[m.task] {
        case Queued =>
          RefuseKeeps(st, job, m.task);
          ReserveKeeps(st, job, m.task);
          QueuedNext(st, job, m);
        case Unserved =>
        case Reading(b, done) =>
          assert Next(st, job, m) == Next(st, job, Move(m.task, m.stop, false));
          if done < job.regions[m.task].size && !(m.stop && !job.target.readable(job.regions[m.task].base)) {
            CopyKeeps(st, job, m.task, m.stop);
          } else {
            FinishKeeps(st, job, m.task, m.stop);
          }
        case Done(_, _, _) =>
      }
    }
  }

  ghost function Run(job: Job, store: Store, schedule: seq<Move>): (st: State)
    requires InJob(job) && Valid(store)
    ensures Inv(st, job)
  {
    if schedule == [] then
      Initial(job, store)
    else
      NextKeeps(Run(job, store, schedule[..|schedule| - 1]), job, schedule[|schedule| - 1]);
      Next(Run(job, store, schedule[..|schedule| - 1]), job, schedule[|schedule| - 1])
  }

  /** The futures are collected in the order of the regions; a scan's bytes are read from the file then. */
  function Collect(st: State, job: Job, n: nat): seq<Scan>
    requires Valid(st.store) && n <= |st.tasks| == |job.regions|
    requires forall i :: 0 <= i < n ==> TaskOk(st, job, i)
  {
    if n == 0 then
      []
    else
      assert TaskOk(st, job, n - 1);
      Collect(st, job, n - 1)
      + match st.tasks[n - 1]
        case Done(b, true, entries) => [Scan(job.regions[n - 1].base, Block(st.store, b), job.query.kind, entries)]
        case _ => []
  }

  predicate Over(task: Task) {
    task.Done? || task.Unserved?
  }

  /** The bases of the regions whose tasks got no block. */
  function RefusedBy(st: State, job: Job): set<nat>
    requires |st.tasks| == |job.regions|
  {
    set i | 0 <= i < |st.tasks| && st.tasks[i].Unserved? :: job.regions[i].base
  }

  lemma {:induction false} RefusedByExactly(st: State, job: Job, i: nat)
    requires |st.tasks| == |job.regions| && AscendingRegions(job.regions) && i < |st.tasks|
    ensures job.regions[i].base in RefusedBy(st, job) <==> st.tasks[i].Unserved?
  {
    if job.regions[i].base in RefusedBy(st, job) {
      var j :| 0 <= j < |st.tasks| && st.tasks[j].Unserved? && job.regions[j].base == job.regions[i].base;
      assert i == j;
    }
  }

  /** Collecting does what first_scan does to a target that cannot be read at the bases of the unserved tasks. */
  lemma {:induction false} CollectsFirstScan(st: State, job: Job, n: nat, refused: set<nat>)
    requires Inv(st, job) && n <= |st.tasks|
    requires forall i :: 0 <= i < |st.tasks| ==> Over(st.tasks[i])
    requires forall i :: 0 <= i < |st.tasks| ==> (job.regions[i].base in refused <==> st.tasks[i].Unserved?)
    ensures Collect(st, job, n) == FirstScan(job.regions[..n], Refusing(job.target, refused), job.query)
    decreases n
  {
    if n > 0 {
      CollectsFirstScan(st, job, n - 1, refused);
      assert job.regions[..n][..n - 1] == job.regions[..n - 1];
      assert TaskOk(st, job, n - 1) && Over(st.tasks[n - 1]);
      RefusedIsUnreadable(job.regions[n - 1], job.target, job.query, refused);
    }
  }

  /**
   * Confluence: every schedule that finishes all tasks, whatever the order of allocations in the file
   * and of the bytes copied into it, collects the list a sequential scan of the regions computes; a
   * region whose task got no block counts as one that cannot be read.
   */
  lemma {:induction false} FirstScanConfluent(job: Job, store: Store, schedule: seq<Move>)
    requires Valid(store) && AscendingRegions(job.regions)
    requires forall i :: 0 <= i < |job.regions| ==> job.regions[i].size > 0
    requires forall i :: 0 <= i < |job.regions| ==>
               Run(job, store, schedule).tasks[i].Done? || Run(job, store, schedule).tasks[i].Unserved?
    ensures var st := Run(job, store, schedule);
            Collect(st, job, |job.regions|)
              == FirstScan(job.regions, Refusing(job.target, RefusedBy(st, job)), job.query)
  {
    var st := Run(job, store, schedule);
    forall i | 0 <= i < |st.tasks|
      ensures job.regions[i].base in RefusedBy(st, job) <==> st.tasks[i].Unserved?
    {
      RefusedByExactly(st, job, i);
    }
    CollectsFirstScan(st, job, |job.regions|, RefusedBy(st, job));
    assert job.regions[..|job.regions|] == job.regions;
  }

  /** When no task goes unserved, that is the first scan of the target itself. */
  lemma {:induction false} ServedFirstScanConfluent(job: Job, store: Store, schedule: seq<Move>)
    requires InJob(job) && Valid(store)
    requires forall i :: 0 <= i < |job.regions| ==> Run(job, store, schedule).tasks[i].Done?
    ensures Collect(Run(job, store, schedule), job, |job.regions|) == FirstScan(job.regions, job.target, job.query)
  {
    CollectsFirstScan(Run(job, store, schedule), job, |job.regions|, {});
    assert job.regions[..|job.regions|] == job.regions;
    NothingRefusedFirst(job.regions, job.target, job.query);
  }

  /** A queued task goes unserved exactly when growth is denied and its region does not fit what is left of the file. */
  lemma {:induction false} UnservedExactly(st: State, job: Job, m: Move)
    requires Inv(st, job) && m.task < |st.tasks| && st.tasks[m.task].Queued?
    ensures var t := Next(st, job, m).tasks[m.task];
            && (t.Unserved? <==> m.denied && st.store.file.offset + job.regions[m.task].size > st.store.file.size)
            && (!t.Unserved? ==> t == Reading(|st.store.blocks|, 0))
  {
  }

  /** Where no growth is denied, no task goes unserved. */
  lemma {:induction false} UndeniedIsServed(job: Job, store: Store, schedule: seq<Move>)
    requires InJob(job) && Valid(store) && forall m :: m in schedule ==> !m.denied
    ensures forall i :: 0 <= i < |Run(job, store, schedule).tasks| ==> !Run(job, store, schedule).tasks[i].Unserved?
    decreases |schedule|
  {
    if schedule != [] {
      var n := |schedule| - 1;
      var st, m := Run(job, store, schedule[..n]), schedule[n];
      assert m in schedule;
      UndeniedIsServed(job, store, schedule[..n]);
      StaysServed(st, job, m);
    }
  }

  lemma {:induction false} StaysServed(st: State, job: Job, m: Move)
    requires Inv(st, job) && !m.denied && forall i :: 0 <= i < |st.tasks| ==> !st.tasks[i].Unserved?
    ensures forall i :: 0 <= i < |Next(st, job, m).tasks| ==> !Next(st, job, m).tasks[i].Unserved?
  {
  }

  /**
   * Where no growth is denied, every schedule that finishes all tasks collects the first scan of the
   * target, whatever the order of allocations and copied bytes.
   */
  lemma {:induction false} UndeniedFirstScanConfluent(job: Job, store: Store, schedule: seq<Move>)
    requires Valid(store) && forall m :: m in schedule ==> !m.denied
    requires forall i :: 0 <= i < |job.regions| ==> job.regions[i].size > 0
    requires forall i :: 0 <= i < |job.regions| ==>
               Run(job, store, schedule).tasks[i].Done? || Run(job, store, schedule).tasks[i].Unserved?
    ensures Collect(Run(job, store, schedule), job, |job.regions|) == FirstScan(job.regions, job.target, job.query)
  {
    UndeniedIsServed(job, store, schedule);
    ServedFirstScanConfluent(job, store, schedule);
  }

  // ---------- what was in the file before ----------

  /** The blocks that were there first read as they did, and no task works on one of them. */
  predicate EarlierKept(st: State, earlier: seq<seq<Byte>>)
    requires Valid(st.store)
  {
    && earlier <= Contents(st.store)
    && forall i :: 0 <= i < |st.tasks| ==> BlockOf(st.tasks[i]) == -1 || BlockOf(st.tasks[i]) >= |earlier|
  }

  lemma {:induction false} NextKeepsEarlier(st: State, job: Job, m: Move, earlier: seq<seq<Byte>>)
    requires Inv(st, job) && EarlierKept(st, earlier)
    ensures Inv(Next(st, job, m), job) && EarlierKept(Next(st, job, m), earlier)
  {
    NextKeeps(st, job, m);
    if m.task < |st.tasks| {
      var r := job.regions[m.task];
      assert TaskOk(st, job, m.task);
      match st.tasks[m.task] {
        case Queued => AllocRefines(st.store, Zeros(r.size));
        case Unserved =>
        case Reading(b, done) =>
          if done < r.size && !(m.stop && !job.target.readable(r.base)) {
            PokeRefines(st.store, b, done, [job.target.memory(r.base + done)]);
          }
        case Done(_, _, _) =>
      }
    }
  }

  lemma {:induction false} RunKeepsEarlier(job: Job, store: Store, schedule: seq<Move>)
    requires InJob(job) && Valid(store)
    ensures EarlierKept(Run(job, store, schedule), Contents(store))
  {
    if schedule != [] {
      var n := |schedule| - 1;
      RunKeepsEarlier(job, store, schedule[..n]);
      NextKeepsEarlier(Run(job, store, schedule[..n]), job, schedule[n], Contents(store));
    }
  }

  /** In every state of every run the blocks of earlier scans read as they did before it. */
  lemma {:induction false} EarlierSnapshotsSurvive(job: Job, store: Store, schedule: seq<Move>, i: nat)
    requires InJob(job) && Valid(store) && i < |store.blocks|
    ensures var after := Run(job, store, schedule).store;
            i < |after.blocks| && Contents(after)[i] == Contents(store)[i]
  {
    RunKeepsEarlier(job, store, schedule);
    assert Contents(store) <= Contents(Run(job, store, schedule).store);
  }

  // ---------- every fair schedule finishes ----------

  function Left(task: Task, r: Region): nat {
    match task
    case Queued => r.size + 2
    case Reading(_, done) => if done <= r.size then r.size - done + 1 else 1
    case Unserved => 0
    case Done(_, _, _) => 0
  }

  function AllLeft(tasks: seq<Task>, regions: seq<Region>): nat
    requires |tasks| == |regions|
  {
    if tasks == [] then
      0
    else
      AllLeft(tasks[..|tasks| - 1], regions[..|regions| - 1]) + Left(tasks[|tasks| - 1], regions[|regions| - 1])
  }

  lemma {:induction false} LeftUpdate(tasks: seq<Task>, regions: seq<Region>, i: nat, task: Task)
    requires i < |tasks| == |regions|
    ensures AllLeft(tasks[i := task], regions) + Left(tasks[i], regions[i])
            == AllLeft(tasks, regions) + Left(task, regions[i])
  {
    var init := tasks[..|tasks| - 1];
    if i == |tasks| - 1 {
      assert tasks[i := task][..|tasks| - 1] == init;
    } else {
      assert tasks[i := task][..|tasks| - 1] == init[i := task];
      LeftUpdate(init, regions[..|regions| - 1], i, task);
    }
  }

  /** A move of an unfinished task always leaves less to do, so all futures become ready. */
  lemma {:induction false} MoveMakesProgress(st: State, job: Job, m: Move)
    requires Inv(st, job) && m.task < |st.tasks| && (st.tasks[m.task].Queued? || st.tasks[m.task].Reading?)
    ensures |Next(st, job, m).tasks| == |job.regions|
    ensures AllLeft(Next(st, job, m).tasks, job.regions) < AllLeft(st.tasks, job.regions)
  {
    assert TaskOk(st, job, m.task);
    LeftUpdate(st.tasks, job.regions, m.task, Next(st, job, m).tasks[m.task]);
  }
}
