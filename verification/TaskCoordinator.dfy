/** Status table, channel, processing loop and cleanup loop of the coordinator, as a transition system whose
    steps are the critical sections of the Go code, and a class whose methods are those critical sections. */
module TaskCoordinator {
  import opened Bytes
  import opened Options
  import opened Sequences

  type TaskId = string

  datatype Status = Pending | Running | Complete | Failed
  datatype Failure = TaskError | CoordinatorStopped

  datatype TaskInfo = TaskInfo(
    workers: nat,             // len(Task.WorkerIDs)
    status: Status,
    startTime: int,
    endTime: Option<int>,
    error: Option<Failure>,
    results: seq<bytes>)
  {
    predicate Finished() {
      status.Complete? || status.Failed?
    }

    /** cleanupTasks drops finished entries whose end lies more than one interval back. */
    predicate Expired(now: int, interval: int) {
      Finished() && endTime.Some? && now - endTime.value > interval
    }

    function Rank(): nat {
      if status.Pending? then 0 else if status.Running? then 1 else 2
    }
  }

  const MINUTE := 60_000_000_000
  const PAIR_SIZE := 2

  /** `submitting` holds the goroutines between the reservation in SubmitTask and the outcome of its select;
      `processing` is what the processing loop holds between its two critical sections. */
  datatype State = State(
    maxTasks: nat,
    interval: int,
    table: map<TaskId, TaskInfo>,
    queue: seq<TaskId>,
    submitting: multiset<TaskId>,
    processing: Option<TaskId>,
    looping: bool,
    done: bool)

  datatype Step =
    | Reserve(id: TaskId, workers: nat, now: int)
    | Enqueue(id: TaskId)
    | Abort(id: TaskId)
    | Dequeue
    | AssignPair
    | Finish(failed: bool, now: int)
    | SetResult(id: TaskId, result: bytes, now: int)
    | CleanupTick(now: int)
    | Close
    | FailRunning(now: int)
    | ExitLoop

  function Init(maxTasks: nat, interval: int): State {
    State(maxTasks, if interval <= 0 then MINUTE else interval, map[], [], multiset{}, None, true, false)
  }

  predicate Enabled(s: State, step: Step) {
    match step
    case Enqueue(id) => id in s.submitting && |s.queue| < s.maxTasks
    case Abort(id) => id in s.submitting
    case Dequeue => s.looping && s.processing.None? && s.queue != []
    case AssignPair => s.processing.Some?
    case Finish(_, _) => s.processing.Some?
    case Close => !s.done
    case FailRunning(_) => s.done
    case ExitLoop => s.done && s.looping && s.processing.None?
    case _ => true
  }

  function Next(s: State, step: Step): State
    requires Enabled(s, step)
  {
    match step
    case Reserve(id, workers, now) =>
      if |s.table| >= s.maxTasks then s
      else s.(table := s.table[id := TaskInfo(workers, Pending, now, None, None, [])],
              submitting := s.submitting + multiset{id})
    case Enqueue(id) => s.(queue := s.queue + [id], submitting := s.submitting - multiset{id})
    case Abort(id) => s.(table := s.table - {id}, submitting := s.submitting - multiset{id})
    case Dequeue =>
      var id := s.queue[0];
      if id !in s.table then s.(queue := s.queue[1..])
      else s.(queue := s.queue[1..], processing := Some(id),
              table := s.table[id := s.table[id].(status := Running)])
    case AssignPair =>
      var id := s.processing.value;
      if id !in s.table then s else s.(table := s.table[id := s.table[id].(workers := PAIR_SIZE)])
    case Finish(failed, now) =>
      var id := s.processing.value;
      if id !in s.table then s.(processing := None)
      else s.(processing := None, table := s.table[id := Concluded(s.table[id], failed, now)])
    case SetResult(id, result, now) =>
      if id !in s.table || !s.table[id].status.Running? then s
      else s.(table := s.table[id := WithResult(s.table[id], result, now)])
    case CleanupTick(now) => s.(table := Unexpired(s.table, now, s.interval))
    case Close => s.(done := true)
    case FailRunning(now) => s.(table := map id | id in s.table :: Stopped(s.table[id], now))
    case ExitLoop => s.(looping := false)
  }

  function Concluded(info: TaskInfo, failed: bool, now: int): TaskInfo {
    if failed then info.(status := Failed, error := Some(TaskError), endTime := Some(now))
    else info.(status := Complete, endTime := Some(now))
  }

  function WithResult(info: TaskInfo, result: bytes, now: int): TaskInfo {
    var info' := info.(results := info.results + [result]);
    if |info'.results| == info'.workers then info'.(status := Complete, endTime := Some(now)) else info'
  }

  function Stopped(info: TaskInfo, now: int): TaskInfo {
    if info.status.Running? then info.(status := Failed, error := Some(CoordinatorStopped), endTime := Some(now))
    else info
  }

  function Unexpired(table: map<TaskId, TaskInfo>, now: int, interval: int): map<TaskId, TaskInfo> {
    map id | id in table && !table[id].Expired(now, interval) :: table[id]
  }

  // ---- the invariant ----

  ghost predicate Live(s: State, id: TaskId) {
    id in s.submitting || id in s.queue || s.processing == Some(id)
  }

  ghost predicate EntryOk(s: State, id: TaskId)
    requires id in s.table
  {
    var info := s.table[id];
    && (info.status.Pending? <==> id in s.submitting || id in s.queue)
    && (info.status.Running? ==> s.processing == Some(id))
    && (info.endTime.Some? <==> info.Finished())
  }

  ghost predicate Inv(s: State) {
    && |s.table| <= s.maxTasks
    && (forall id :: id in s.table ==> EntryOk(s, id))
    && (forall id :: id in s.submitting ==> id in s.table && s.submitting[id] == 1 && id !in s.queue)
    && (forall id :: id in s.queue ==> id in s.table)
    && Distinct(s.queue)
    && (s.processing.Some? ==> s.processing.value !in s.submitting && s.processing.value !in s.queue)
  }

  /** The caller's obligation: an ID is not reused while an earlier submission of it is still on its way. */
  ghost predicate Careful(s: State, step: Step) {
    step.Reserve? ==> !Live(s, step.id)
  }

  lemma ReserveKeepsInv(s: State, step: Step)
    requires Inv(s) && step.Reserve? && |s.table| < s.maxTasks && !Live(s, step.id)
    ensures Inv(Next(s, step))
  {
    var s' := Next(s, step);
    forall id | id in s'.table ensures EntryOk(s', id) {
      assert id != step.id ==> EntryOk(s, id);
    }
  }

  lemma EnqueueKeepsInv(s: State, step: Step)
    requires Inv(s) && step.Enqueue? && Enabled(s, step)
    ensures Inv(Next(s, step))
  {
    var s' := Next(s, step);
    forall id | id in s'.table ensures EntryOk(s', id) {
      assert EntryOk(s, id);
    }
  }

  lemma AbortKeepsInv(s: State, step: Step)
    requires Inv(s) && step.Abort? && Enabled(s, step)
    ensures Inv(Next(s, step))
  {
    var s' := Next(s, step);
    forall id | id in s'.table ensures EntryOk(s', id) {
      assert EntryOk(s, id);
    }
  }

  lemma DequeueKeepsInv(s: State, step: Step)
    requires Inv(s) && step.Dequeue? && Enabled(s, step)
    ensures Inv(Next(s, step))
  {
    var s' := Next(s, step);
    assert s.queue == [s.queue[0]] + s'.queue;
    assert EntryOk(s, s.queue[0]);
    forall id | id in s'.table ensures EntryOk(s', id) {
      assert EntryOk(s, id);
    }
  }

  /** A change that leaves the queue alone keeps the invariant when it keeps every pending entry. */
  lemma TableChangeKeepsInv(s: State, s': State)
    requires Inv(s) && s' == s.(table := s'.table, processing := s'.processing, looping := s'.looping, done := s'.done)
    requires s'.processing == s.processing || s'.processing.None?
    requires s'.table.Keys <= s.table.Keys
    requires forall id :: id in s.table && s.table[id].status.Pending? ==> id in s'.table
    requires forall id :: id in s'.table ==> EntryOk(s', id)
    ensures Inv(s')
  {
    SubsetSize(s'.table.Keys, s.table.Keys);
    forall id | id in s.submitting || id in s.queue ensures id in s'.table {
      assert EntryOk(s, id);
    }
  }

  lemma EntryChangeKeepsInv(s: State, s': State, id: TaskId)
    requires Inv(s) && id in s.table && !s.table[id].status.Pending?
    requires id in s'.table && s' == s.(table := s.table[id := s'.table[id]], processing := s'.processing)
    requires s'.processing == s.processing || (s'.processing.None? && s.processing == Some(id))
    requires EntryOk(s, id) ==> EntryOk(s', id)
    ensures Inv(s')
  {
    forall x | x in s'.table ensures EntryOk(s', x) {
      assert EntryOk(s, x);
    }
    TableChangeKeepsInv(s, s');
  }

  lemma SweepKeepsInv(s: State, step: Step)
    requires Inv(s) && Enabled(s, step) && (step.CleanupTick? || step.FailRunning?)
    ensures Inv(Next(s, step))
  {
    var s' := Next(s, step);
    forall id | id in s'.table ensures EntryOk(s', id) {
      assert EntryOk(s, id);
    }
    TableChangeKeepsInv(s, s');
  }

  lemma {:induction false} SubsetSize<T>(a: set<T>, b: set<T>)
    requires a <= b
    ensures |a| <= |b|
  {
    assert b == a + (b - a);
  }

  lemma LoopStepKeepsInv(s: State, step: Step)
    requires Inv(s) && Enabled(s, step) && (step.AssignPair? || step.Finish?)
    ensures Inv(Next(s, step))
  {
    var id := s.processing.value;
    if id in s.table {
      assert EntryOk(s, id);
      EntryChangeKeepsInv(s, Next(s, step), id);
    } else {
      TableChangeKeepsInv(s, Next(s, step));
    }
  }

  lemma SetResultKeepsInv(s: State, step: Step)
    requires Inv(s) && step.SetResult?
    ensures Inv(Next(s, step))
  {
    if Next(s, step) != s {
      EntryChangeKeepsInv(s, Next(s, step), step.id);
    }
  }

  lemma StepKeepsInv(s: State, step: Step)
    requires Inv(s) && Enabled(s, step) && Careful(s, step)
    ensures Inv(Next(s, step))
  {
    match step
    case Reserve(_, _, _) => if |s.table| < s.maxTasks { ReserveKeepsInv(s, step); }
    case Enqueue(_) => EnqueueKeepsInv(s, step);
    case Abort(_) => AbortKeepsInv(s, step);
    case Dequeue => DequeueKeepsInv(s, step);
    case AssignPair => LoopStepKeepsInv(s, step);
    case Finish(_, _) => LoopStepKeepsInv(s, step);
    case SetResult(_, _, _) => SetResultKeepsInv(s, step);
    case CleanupTick(_) => SweepKeepsInv(s, step);
    case FailRunning(_) => SweepKeepsInv(s, step);
    case Close => TableChangeKeepsInv(s, Next(s, step));
    case ExitLoop => TableChangeKeepsInv(s, Next(s, step));
  }

  // ---- whole runs ----

  /** Every step is enabled when its turn comes. */
  ghost predicate Possible(s: State, steps: seq<Step>)
    decreases |steps|
  {
    steps == [] || (Enabled(s, steps[0]) && Possible(Next(s, steps[0]), steps[1..]))
  }

  ghost function Exec(s: State, steps: seq<Step>): State
    requires Possible(s, steps)
    decreases |steps|
  {
    if steps == [] then s else Exec(Next(s, steps[0]), steps[1..])
  }

  /** A possible run whose submissions are careful. */
  ghost predicate CarefulRun(s: State, steps: seq<Step>): (careful: bool)
    ensures careful ==> Possible(s, steps)
    decreases |steps|
  {
    steps == [] ||
    (Enabled(s, steps[0]) && Careful(s, steps[0]) && CarefulRun(Next(s, steps[0]), steps[1..]))
  }

  lemma {:induction false} RunKeepsInv(s: State, steps: seq<Step>)
    requires Inv(s) && CarefulRun(s, steps)
    ensures Inv(Exec(s, steps))
    decreases |steps|
  {
    if steps != [] {
      StepKeepsInv(s, steps[0]);
      RunKeepsInv(Next(s, steps[0]), steps[1..]);
    }
  }

  lemma {:induction false} BoundIsFixed(s: State, steps: seq<Step>)
    requires Possible(s, steps)
    ensures Exec(s, steps).maxTasks == s.maxTasks
    decreases |steps|
  {
    if steps != [] {
      assert Next(s, steps[0]).maxTasks == s.maxTasks;
      BoundIsFixed(Next(s, steps[0]), steps[1..]);
    }
  }

  function One(b: bool): nat {
    if b then 1 else 0
  }

  /** In every reachable state the table is within its bound, each entry is in exactly one phase, at most the entry held
      by the loop is running, an admitted submission finds room in the channel, and the loop finds the entry of
      whatever it takes from the channel. */
  lemma EveryRunIsSafe(maxTasks: nat, interval: int, steps: seq<Step>)
    requires CarefulRun(Init(maxTasks, interval), steps)
    ensures Safe(Exec(Init(maxTasks, interval), steps)) && Exec(Init(maxTasks, interval), steps).maxTasks == maxTasks
  {
    BoundIsFixed(Init(maxTasks, interval), steps);
    RunKeepsInv(Init(maxTasks, interval), steps);
    InvIsSafe(Exec(Init(maxTasks, interval), steps));
  }

  ghost predicate InOnePhase(s: State, id: TaskId)
    requires id in s.table
  {
    One(id in s.submitting) + One(id in s.queue) + One(s.table[id].status.Running?) + One(s.table[id].Finished()) == 1
  }

  ghost predicate Safe(s: State) {
    && |s.table| <= s.maxTasks
    && (forall id :: id in s.table ==> InOnePhase(s, id))
    && (forall id :: id in s.table && s.table[id].status.Running? ==> s.processing == Some(id))
    && (forall id :: id in s.table ==> (s.table[id].endTime.Some? <==> s.table[id].Finished()))
    && (forall id :: id in s.submitting ==> Enabled(s, Enqueue(id)))
    && (Enabled(s, Dequeue) ==> s.queue[0] in s.table)
  }

  lemma InvIsSafe(s: State)
    requires Inv(s)
    ensures Safe(s)
  {
    forall id | id in s.table
      ensures InOnePhase(s, id) && (s.table[id].status.Running? ==> s.processing == Some(id))
      ensures s.table[id].endTime.Some? <==> s.table[id].Finished()
    {
      assert EntryOk(s, id);
    }
    forall id | id in s.submitting ensures |s.queue| < s.maxTasks {
      AdmittedFindsRoom(s, id);
    }
  }

  /** The channel holds distinct table entries other than the one being submitted, so it is never full for it. */
  lemma AdmittedFindsRoom(s: State, id: TaskId)
    requires Inv(s) && id in s.submitting
    ensures |s.queue| < s.maxTasks
  {
    Pigeonhole(s.queue, s.table.Keys - {id});
  }

  /** Whatever careful submissions follow, every state stays safe. */
  ghost predicate SafeFrom(s: State) {
    forall steps :: CarefulRun(s, steps) ==> Safe(Exec(s, steps))
  }

  lemma InvIsSafeFrom(s: State)
    requires Inv(s)
    ensures SafeFrom(s)
  {
    forall steps | CarefulRun(s, steps) ensures Safe(Exec(s, steps)) {
      RunKeepsInv(s, steps);
      InvIsSafe(Exec(s, steps));
    }
  }

  lemma OneStepRun(s: State, step: Step)
    requires Enabled(s, step) && Careful(s, step)
    ensures CarefulRun(s, [step]) && Exec(s, [step]) == Next(s, step)
  {
    assert [step][1..] == [];
  }

  /** Two live submissions of one ID: queued and reserved at once, both still submitting, or reserved while the loop
      works on the first. Each is unsafe now or after one more step. */
  lemma LiveReuseIsUnsafe(s: State, step: Step)
    requires Inv(s) && step.Reserve? && |s.table| < s.maxTasks && Live(s, step.id)
    ensures !SafeFrom(Next(s, step))
  {
    var id, s' := step.id, Next(s, step);
    if id in s.queue {
      assert CarefulRun(s', []) && !InOnePhase(Exec(s', []), id);
    } else {
      var next := if id in s.submitting then Enqueue(id) else Finish(false, 0);
      if id in s.submitting { AdmittedFindsRoom(s, id); }
      OneStepRun(s', next);
      assert !InOnePhase(Exec(s', [next]), id);
    }
  }

  /** A reservation leaves the coordinator safe for good exactly when it is refused or no earlier submission of its ID
      is still on its way. */
  lemma ReserveIsSafeExactly(s: State, step: Step)
    requires Inv(s) && step.Reserve?
    ensures SafeFrom(Next(s, step)) <==> |s.table| >= s.maxTasks || !Live(s, step.id)
  {
    if |s.table| >= s.maxTasks {
      InvIsSafeFrom(s);
    } else if !Live(s, step.id) {
      ReserveKeepsInv(s, step);
      InvIsSafeFrom(Next(s, step));
    } else {
      LiveReuseIsUnsafe(s, step);
    }
  }

  /** With a reused ID the reservation no longer bounds the channel: a table of one entry fills a channel of two, and a
      third submission is admitted that cannot send. */
  lemma ReusedIdBlocksAnAdmittedSubmission()
    ensures var s0 := Init(2, 1);
            var s1 := Next(s0, Reserve("t", 0, 0));
            var s2 := Next(s1, Enqueue("t"));
            var s3 := Next(s2, Reserve("t", 0, 0));
            var s4 := Next(s3, Enqueue("t"));
            var s5 := Next(s4, Reserve("t", 0, 0));
            "t" in s5.submitting && !Enabled(s5, Enqueue("t"))
  {
    var info := TaskInfo(0, Pending, 0, None, None, []);
    assert map["t" := info]["t" := info] == map["t" := info];
    assert |map["t" := info]| == 1;
  }

  // ---- order of processing ----

  function SentBy(step: Step): seq<TaskId> {
    if step.Enqueue? then [step.id] else []
  }

  function TakenBy(s: State, step: Step): seq<TaskId>
    requires Enabled(s, step)
  {
    if step.Dequeue? then [s.queue[0]] else []
  }

  function Sent(steps: seq<Step>): seq<TaskId> {
    if steps == [] then [] else SentBy(steps[0]) + Sent(steps[1..])
  }

  ghost function Taken(s: State, steps: seq<Step>): seq<TaskId>
    requires Possible(s, steps)
    decreases |steps|
  {
    if steps == [] then [] else TakenBy(s, steps[0]) + Taken(Next(s, steps[0]), steps[1..])
  }

  lemma StepMovesQueue(s: State, step: Step)
    requires Enabled(s, step)
    ensures s.queue + SentBy(step) == TakenBy(s, step) + Next(s, step).queue
  {
    match step
    case Reserve(_, _, _) =>
    case Enqueue(_) =>
    case Abort(_) =>
    case Dequeue =>
    case AssignPair =>
    case Finish(_, _) =>
    case SetResult(_, _, _) =>
    case CleanupTick(_) =>
    case Close =>
    case FailRunning(_) =>
    case ExitLoop =>
  }

  lemma QueueMovesCompose<T>(q: seq<T>, sent: seq<T>, taken: seq<T>, q': seq<T>, sent': seq<T>, taken': seq<T>,
                             q'': seq<T>)
    requires q + sent == taken + q' && q' + sent' == taken' + q''
    ensures q + (sent + sent') == (taken + taken') + q''
  {
    calc {
      q + (sent + sent');
      (q + sent) + sent';
      (taken + q') + sent';
      taken + (q' + sent');
      (taken + taken') + q'';
    }
  }

  /** Over any run at all, tasks are taken in the order they were sent, none lost and none invented. */
  lemma {:induction false} TakenInOrder(s: State, steps: seq<Step>)
    requires Possible(s, steps)
    ensures s.queue + Sent(steps) == Taken(s, steps) + Exec(s, steps).queue
    decreases |steps|
  {
    if steps != [] {
      var step, rest := steps[0], steps[1..];
      var s' := Next(s, step);
      StepMovesQueue(s, step);
      TakenInOrder(s', rest);
      QueueMovesCompose(s.queue, SentBy(step), TakenBy(s, step), s'.queue, Sent(rest), Taken(s', rest),
                        Exec(s', rest).queue);
    }
  }

  // ---- status never moves back ----

  /** One submission of the ID is on its way at most, and its entry is pending. Nothing is asked of other IDs. */
  ghost predicate OwnOk(s: State, id: TaskId) {
    && (id in s.submitting ==> s.submitting[id] == 1 && id !in s.queue)
    && (id in s.submitting || id in s.queue ==>
          id in s.table && s.table[id].status.Pending? && s.processing != Some(id))
    && AtMostOnce(s.queue, id)
  }

  ghost predicate AtMostOnce(queue: seq<TaskId>, id: TaskId) {
    forall i, j :: 0 <= i < j < |queue| && queue[i] == id ==> queue[j] != id
  }

  lemma InvIsOwnOk(s: State, id: TaskId)
    requires Inv(s)
    ensures OwnOk(s, id)
  {
    assert id in s.table ==> EntryOk(s, id);
  }

  lemma QueueStepKeepsOwn(s: State, step: Step, id: TaskId)
    requires OwnOk(s, id) && Enabled(s, step) && (step.Enqueue? || step.Abort? || step.Dequeue?)
    ensures OwnOk(Next(s, step), id)
  {
    if step.Dequeue? {
      assert s.queue == [s.queue[0]] + s.queue[1..];
      assert s.queue[0] == id ==> id !in s.queue[1..];
    }
  }

  lemma OtherStepKeepsOwn(s: State, step: Step, id: TaskId)
    requires OwnOk(s, id) && Enabled(s, step) && !step.Enqueue? && !step.Abort? && !step.Dequeue?
    requires step.Reserve? ==> step.id != id
    ensures OwnOk(Next(s, step), id)
  {
  }

  lemma StepNeverMovesBack(s: State, step: Step, id: TaskId)
    requires OwnOk(s, id) && Enabled(s, step) && id in s.table && id in Next(s, step).table
    requires step.Reserve? ==> step.id != id
    ensures s.table[id].Rank() <= Next(s, step).table[id].Rank()
  {
    if !(step.Dequeue? && id == s.queue[0]) {
      OtherStepNeverMovesBack(s, step, id);
    }
  }

  lemma OtherStepNeverMovesBack(s: State, step: Step, id: TaskId)
    requires Enabled(s, step) && id in s.table && id in Next(s, step).table
    requires step.Reserve? ==> step.id != id
    requires step.Dequeue? ==> s.queue[0] != id
    ensures s.table[id].Rank() <= Next(s, step).table[id].Rank()
  {
  }

  lemma OnlyAbortAndCleanupRemove(s: State, step: Step, id: TaskId)
    requires Enabled(s, step) && id in s.table && id !in Next(s, step).table
    ensures step == Abort(id) || (step.CleanupTick? && s.table[id].Expired(step.now, s.interval))
  {
  }

  /** An entry leaves the table only when its submission gives up or when it finished more than an interval ago. */
  lemma EntriesLeaveOnlyWhenOver(s: State, step: Step, id: TaskId)
    requires Inv(s) && Enabled(s, step) && id in s.table && id !in Next(s, step).table
    ensures || (step == Abort(id) && s.table[id].status == Pending && id in s.submitting)
            || (step.CleanupTick? && (s.table[id].status == Complete || s.table[id].status == Failed)
                && s.table[id].endTime.Some? && step.now - s.table[id].endTime.value > s.interval
                && id !in s.queue && id !in s.submitting)
  {
    OnlyAbortAndCleanupRemove(s, step, id);
    assert EntryOk(s, id);
  }

  ghost predicate NotResubmitted(steps: seq<Step>, id: TaskId) {
    forall i :: 0 <= i < |steps| && steps[i].Reserve? ==> steps[i].id != id
  }

  /** Some tick of the run comes more than an interval after the entry's end. */
  ghost predicate SweptBy(steps: seq<Step>, info: TaskInfo, interval: int) {
    info.endTime.Some? &&
    exists i :: 0 <= i < |steps| && steps[i].CleanupTick? && steps[i].now - info.endTime.value > interval
  }

  lemma SweptByRest(steps: seq<Step>, info: TaskInfo, interval: int)
    requires steps != [] && info.Finished()
    ensures SweptBy(steps, info, interval) <==>
            (steps[0].CleanupTick? && info.Expired(steps[0].now, interval)) || SweptBy(steps[1..], info, interval)
  {
    var rest := steps[1..];
    if SweptBy(steps, info, interval) && !(steps[0].CleanupTick? && info.Expired(steps[0].now, interval)) {
      var i :| 0 <= i < |steps| && steps[i].CleanupTick? && steps[i].now - info.endTime.value > interval;
      assert rest[i-1] == steps[i];
    }
    if SweptBy(rest, info, interval) {
      var i :| 0 <= i < |rest| && rest[i].CleanupTick? && rest[i].now - info.endTime.value > interval;
      assert steps[i+1] == rest[i];
    }
  }

  lemma StaysUnheld(s: State, step: Step, id: TaskId)
    requires Enabled(s, step) && !Live(s, id) && (step.Reserve? ==> step.id != id)
    ensures !Live(Next(s, step), id)
  {
    assert step.Dequeue? ==> s.queue[0] in s.queue;
  }

  /** Nothing but a tick past its expiry touches a finished entry that nobody holds any more. */
  lemma SettledStep(s: State, step: Step, id: TaskId)
    requires Enabled(s, step) && id in s.table && s.table[id].Finished() && !Live(s, id)
    requires step.Reserve? ==> step.id != id
    ensures if step.CleanupTick? && s.table[id].Expired(step.now, s.interval) then id !in Next(s, step).table
            else id in Next(s, step).table && Next(s, step).table[id] == s.table[id]
  {
    assert step.Dequeue? ==> s.queue[0] in s.queue;
  }

  lemma {:induction false} AbsentStaysAbsent(s: State, steps: seq<Step>, id: TaskId)
    requires Possible(s, steps) && id !in s.table && NotResubmitted(steps, id)
    ensures id !in Exec(s, steps).table
    decreases |steps|
  {
    if steps != [] {
      assert id !in Next(s, steps[0]).table;
      AbsentStaysAbsent(Next(s, steps[0]), steps[1..], id);
    }
  }

  /** Over any run, a finished entry that nobody holds any more is kept as it is until the first tick more than an
      interval after its end, and is gone from then on, unless its ID is submitted again. */
  lemma {:induction false} FinishedIsKeptUntilExpired(s: State, steps: seq<Step>, id: TaskId)
    requires Possible(s, steps) && id in s.table && s.table[id].Finished() && !Live(s, id) && NotResubmitted(steps, id)
    ensures if SweptBy(steps, s.table[id], s.interval) then id !in Exec(s, steps).table
            else id in Exec(s, steps).table && Exec(s, steps).table[id] == s.table[id]
    decreases |steps|
  {
    if steps != [] {
      var s' := Next(s, steps[0]);
      assert steps[0].Reserve? ==> steps[0].id != id;
      StaysUnheld(s, steps[0], id);
      SettledStep(s, steps[0], id);
      SweptByRest(steps, s.table[id], s.interval);
      if id in s'.table {
        FinishedIsKeptUntilExpired(s', steps[1..], id);
      } else {
        AbsentStaysAbsent(s', steps[1..], id);
      }
    }
  }

  /** Over any run in which the ID is not submitted again, its status never moves back, however carelessly other IDs are
      reused. */
  lemma {:induction false} RunNeverMovesBack(s: State, steps: seq<Step>, id: TaskId)
    requires OwnOk(s, id) && Possible(s, steps) && NotResubmitted(steps, id)
    requires id in s.table && id in Exec(s, steps).table
    ensures s.table[id].Rank() <= Exec(s, steps).table[id].Rank()
    decreases |steps|
  {
    if steps != [] {
      var step, s' := steps[0], Next(s, steps[0]);
      if step.Enqueue? || step.Abort? || step.Dequeue? {
        QueueStepKeepsOwn(s, step, id);
      } else {
        OtherStepKeepsOwn(s, step, id);
      }
      if id in s'.table {
        StepNeverMovesBack(s, step, id);
        RunNeverMovesBack(s', steps[1..], id);
      } else {
        AbsentStaysAbsent(s', steps[1..], id);
      }
    }
  }

  // ---- what a reader of the table learns ----

  /** How an entry reads after the loop is done with it. */
  ghost predicate Records(before: TaskInfo, after: TaskInfo, failed: bool, now: int) {
    && after.status == (if failed then Failed else Complete)
    && after.error == (if failed then Some(TaskError) else before.error)
    && after.endTime == Some(now)
    && after.workers == before.workers && after.startTime == before.startTime && after.results == before.results
  }

  lemma FinishRecords(s: State, failed: bool, now: int, id: TaskId)
    requires s.processing == Some(id) && id in s.table && OwnOk(s, id)
    ensures var s' := Next(s, Finish(failed, now));
            && id in s'.table && Records(s.table[id], s'.table[id], failed, now)
            && !Live(s', id) && s'.interval == s.interval
  {
  }

  /** The outcome of a task is on record from the moment the loop is done with it until the first tick more than an
      interval later, and gone from then on, unless its ID is submitted again. */
  lemma OutcomeStaysOnRecord(s: State, failed: bool, now: int, steps: seq<Step>, id: TaskId)
    requires s.processing == Some(id) && id in s.table && OwnOk(s, id)
    requires Possible(Next(s, Finish(failed, now)), steps) && NotResubmitted(steps, id)
    ensures var s' := Exec(Next(s, Finish(failed, now)), steps);
            if exists i :: 0 <= i < |steps| && steps[i].CleanupTick? && steps[i].now - now > s.interval
            then id !in s'.table
            else id in s'.table && Records(s.table[id], s'.table[id], failed, now)
  {
    FinishRecords(s, failed, now, id);
    FinishedIsKeptUntilExpired(Next(s, Finish(failed, now)), steps, id);
  }

  /** Results for one task, one after the other at the given times. */
  function ResultSteps(id: TaskId, results: seq<bytes>, times: seq<int>): seq<Step>
    requires |results| == |times|
  {
    if results == [] then [] else [SetResult(id, results[0], times[0])] + ResultSteps(id, results[1..], times[1..])
  }

  lemma {:induction false} LateResultsAreRefused(s: State, id: TaskId, results: seq<bytes>, times: seq<int>)
    requires id in s.table && s.table[id].status != Running && |results| == |times|
    ensures Possible(s, ResultSteps(id, results, times)) && Exec(s, ResultSteps(id, results, times)) == s
    decreases |results|
  {
    if results != [] {
      LateResultsAreRefused(s, id, results[1..], times[1..]);
      assert ResultSteps(id, results, times)[1..] == ResultSteps(id, results[1..], times[1..]);
    }
  }

  /** How a running entry reads after some results: complete with the one that makes their number the number of workers,
      the rest being refused, or still running with all of them. An entry that has as many as workers already, such as
      one without workers, never completes this way. */
  ghost predicate Collected(before: TaskInfo, after: TaskInfo, results: seq<bytes>, times: seq<int>)
    requires |results| == |times|
  {
    var missing := before.workers - |before.results|;
    && after.workers == before.workers && after.startTime == before.startTime && after.error == before.error
    && if 1 <= missing <= |results|
       then after.results == before.results + results[..missing]
            && after.status == Complete && after.endTime == Some(times[missing-1])
       else after.results == before.results + results && after.status == Running && after.endTime == before.endTime
  }

  lemma CollectedNext(before: TaskInfo, next: TaskInfo, after: TaskInfo, results: seq<bytes>, times: seq<int>)
    requires |results| == |times| > 0 && next == before.(results := before.results + [results[0]])
    requires before.workers != |before.results| + 1 && Collected(next, after, results[1..], times[1..])
    ensures Collected(before, after, results, times)
  {
    var missing := before.workers - |before.results|;
    assert next.results + results[1..] == before.results + results;
    if 1 <= missing <= |results| {
      assert next.results + results[1..][..missing-1] == before.results + results[..missing];
    }
  }

  lemma {:induction false} ResultsCompleteTheTask(s: State, id: TaskId, results: seq<bytes>, times: seq<int>)
    requires id in s.table && s.table[id].status == Running && |results| == |times|
    ensures var steps := ResultSteps(id, results, times);
            && Possible(s, steps) && id in Exec(s, steps).table
            && Collected(s.table[id], Exec(s, steps).table[id], results, times)
    decreases |results|
  {
    var steps, before := ResultSteps(id, results, times), s.table[id];
    if results == [] {
      assert before.results + results == before.results;
    } else {
      var s' := Next(s, steps[0]);
      assert steps[1..] == ResultSteps(id, results[1..], times[1..]);
      if before.workers == |before.results| + 1 {
        LateResultsAreRefused(s', id, results[1..], times[1..]);
        assert results[..1] == [results[0]];
      } else {
        ResultsCompleteTheTask(s', id, results[1..], times[1..]);
        CollectedNext(before, s'.table[id], Exec(s, steps).table[id], results, times);
      }
    }
  }

  /** Stopping leaves nothing running: what ran has failed with the stop as its reason, everything else is as it was. */
  lemma StopFailsWhatRuns(s: State, now: int, id: TaskId)
    requires !s.done
    ensures var s' := Next(Next(s, Close), FailRunning(now));
            && s'.done && s'.table.Keys == s.table.Keys && s'.queue == s.queue
            && (id in s.table ==>
                var before, after := s.table[id], s'.table[id];
                && after.status != Running
                && (before.status != Running ==> after == before)
                && (before.status == Running ==>
                    after.status == Failed && after.error == Some(CoordinatorStopped) && after.endTime == Some(now)
                    && after.workers == before.workers && after.startTime == before.startTime
                    && after.results == before.results))
  {
  }

  // ---- the coordinator object ----

  class Coordinator {
    const maxTasks: nat
    const interval: int
    var taskStatus: map<TaskId, TaskInfo>
    var tasks: seq<TaskId>
    var done: bool
    // where the goroutines stand
    ghost var submitting: multiset<TaskId>
    ghost var processing: Option<TaskId>
    ghost var looping: bool

    ghost function Model(): State
      reads this
    {
      State(maxTasks, interval, taskStatus, tasks, submitting, processing, looping, done)
    }

    constructor (maxTasks: nat, cleanupInterval: int)
      ensures Model() == Init(maxTasks, cleanupInterval) && Inv(Model())
      ensures interval == if cleanupInterval <= 0 then 60_000_000_000 else cleanupInterval
      ensures this.maxTasks == maxTasks
      ensures taskStatus == map[] && tasks == [] && !done
    {
      this.maxTasks := maxTasks;
      interval := if cleanupInterval <= 0 then MINUTE else cleanupInterval;
      taskStatus, tasks, done := map[], [], false;
      submitting, processing, looping := multiset{}, None, true;
    }

    /** SubmitTask up to its select. */
    method Admit(id: TaskId, workers: nat, now: int) returns (ok: bool)
      modifies this
      ensures ok == (|old(taskStatus)| < maxTasks)
      ensures Model() == Next(old(Model()), Reserve(id, workers, now))
      ensures taskStatus == if !ok then old(taskStatus)
                            else old(taskStatus)[id := TaskInfo(workers, Pending, now, None, None, [])]
    {
      if |taskStatus| >= maxTasks {
        return false;
      }
      taskStatus := taskStatus[id := TaskInfo(workers, Pending, now, None, None, [])];
      submitting := submitting + multiset{id};
      return true;
    }

    /** The send branch of the select, which is ready when the channel has room; for an admitted submission it always
        is. */
    method Send(id: TaskId) returns (ready: bool)
      requires id in submitting
      modifies this
      ensures ready == Enabled(old(Model()), Enqueue(id)) && (old(Inv(Model())) ==> ready)
      ensures ready == (|old(tasks)| < maxTasks) && tasks == old(tasks) + (if ready then [id] else [])
      ensures Model() == if ready then Next(old(Model()), Enqueue(id)) else old(Model())
    {
      if Inv(Model()) { AdmittedFindsRoom(Model(), id); }
      if |tasks| >= maxTasks {
        return false;
      }
      tasks := tasks + [id];
      submitting := submitting - multiset{id};
      return true;
    }

    /** The cancellation and timeout branches of the select. */
    method GiveUp(id: TaskId)
      requires id in submitting
      modifies this
      ensures Model() == Next(old(Model()), Abort(id))
      ensures taskStatus == old(taskStatus) - {id}
    {
      taskStatus := taskStatus - {id};
      submitting := submitting - multiset{id};
    }

    /** The first critical section of processTasks; `taken` is None on the cancelled branch. */
    method Take() returns (taken: Option<TaskId>)
      requires Enabled(Model(), Dequeue)
      modifies this
      ensures Model() == Next(old(Model()), Dequeue)
      ensures old(Inv(Model())) ==> taken == Some(old(tasks)[0])
      ensures tasks == old(tasks)[1..] && (taken.None? <==> old(tasks)[0] !in old(taskStatus))
      ensures taken.Some? ==> taken.value in old(taskStatus)
      ensures taskStatus == if taken.None? then old(taskStatus)
                            else old(taskStatus)[taken.value := old(taskStatus)[taken.value].(status := Running)]
    {
      var id := tasks[0];
      tasks := tasks[1..];
      if id !in taskStatus {
        return None;
      }
      taskStatus := taskStatus[id := taskStatus[id].(status := Running)];
      processing := Some(id);
      return Some(id);
    }

    /** The second critical section of processTasks. */
    method Conclude(id: TaskId, failed: bool, now: int)
      requires processing == Some(id)
      modifies this
      ensures Model() == Next(old(Model()), Finish(failed, now))
      ensures id in old(taskStatus) ==> id in taskStatus && Records(old(taskStatus)[id], taskStatus[id], failed, now)
    {
      if id in taskStatus {
        if failed {
          taskStatus := taskStatus[id := taskStatus[id].(status := Failed, error := Some(TaskError))];
        } else {
          taskStatus := taskStatus[id := taskStatus[id].(status := Complete)];
        }
        taskStatus := taskStatus[id := taskStatus[id].(endTime := Some(now))];
      }
      processing := None;
    }

    method SetTaskResult(id: TaskId, result: bytes, now: int) returns (ok: bool)
      modifies this
      ensures ok == (id in old(taskStatus) && old(taskStatus)[id].status.Running?)
      ensures Model() == Next(old(Model()), SetResult(id, result, now))
      ensures !ok ==> taskStatus == old(taskStatus)
      ensures ok ==> id in taskStatus && taskStatus[id].results == old(taskStatus)[id].results + [result]
      ensures ok ==> if |taskStatus[id].results| == taskStatus[id].workers
                     then taskStatus[id].status == Complete && taskStatus[id].endTime == Some(now)
                     else taskStatus[id].status == Running
    {
      if id !in taskStatus || !taskStatus[id].status.Running? {
        return false;
      }
      taskStatus := taskStatus[id := taskStatus[id].(results := taskStatus[id].results + [result])];
      if |taskStatus[id].results| == taskStatus[id].workers {
        taskStatus := taskStatus[id := taskStatus[id].(status := Complete, endTime := Some(now))];
      }
      return true;
    }

    /** One tick of cleanupTasks, whatever order the table is walked in. */
    method Cleanup(now: int)
      modifies this
      ensures Model() == Next(old(Model()), CleanupTick(now))
    {
      var todo := taskStatus.Keys;
      while todo != {}
        invariant todo <= taskStatus.Keys <= old(taskStatus.Keys)
        invariant forall id :: id in old(taskStatus) ==>
          (id in taskStatus <==> id in todo || !old(taskStatus)[id].Expired(now, interval))
        invariant forall id :: id in taskStatus ==> taskStatus[id] == old(taskStatus)[id]
        invariant unchanged(`tasks, `done, `submitting, `processing, `looping)
        decreases |todo|
      {
        var id :| id in todo;
        if taskStatus[id].Expired(now, interval) {
          taskStatus := taskStatus - {id};
        }
        todo := todo - {id};
      }
      assert taskStatus == Unexpired(old(taskStatus), now, interval);
    }

    /** Stop: closes the done channel, then fails what is still running. */
    method StopTasks(now: int)
      requires !done
      modifies this
      ensures Model() == Next(Next(old(Model()), Close), FailRunning(now))
    {
      done := true;
      var todo := taskStatus.Keys;
      while todo != {}
        invariant todo <= taskStatus.Keys == old(taskStatus.Keys)
        invariant forall id :: id in taskStatus ==>
          taskStatus[id] == if id in todo then old(taskStatus)[id] else Stopped(old(taskStatus)[id], now)
        invariant done && unchanged(`tasks, `submitting, `processing, `looping)
        decreases |todo|
      {
        var id :| id in todo;
        if taskStatus[id].status.Running? {
          taskStatus := taskStatus[id := taskStatus[id].(status := Failed, error := Some(CoordinatorStopped),
                                                         endTime := Some(now))];
        }
        todo := todo - {id};
      }
      assert taskStatus == map id | id in old(taskStatus) :: Stopped(old(taskStatus)[id], now);
    }

    /** handleRegionalTask replaces the workers of a regional task by the two of its pair. */
    method AssignWorkers(id: TaskId)
      requires processing == Some(id)
      modifies this
      ensures Model() == Next(old(Model()), AssignPair)
      ensures id in old(taskStatus) ==> taskStatus == old(taskStatus)[id := old(taskStatus)[id].(workers := 2)]
    {
      if id in taskStatus {
        taskStatus := taskStatus[id := taskStatus[id].(workers := PAIR_SIZE)];
      }
    }
  }
}
