/** Admission of email body reads (`EmailBodyLimiter` and `read_email_body`, src/daemon.rs). */
module EmailLimiter {
  import opened Wrappers
  import Text

  // Reads are tasks whose steps interleave. A read takes a global permit, waiting for it only with a
  // queue permit in hand, and then a permit of its source; it may be cancelled at any step.

  const EMAIL_BODY_GLOBAL_LIMIT: nat := 4

  const EMAIL_BODY_QUEUE_LIMIT: nat := 32

  const EMAIL_BODY_SOURCE_LIMIT: nat := 2

  datatype Semaphore = Global | Queue | Source(key: string)

  function Limit(sem: Semaphore): nat
  {
    match sem
    case Global => EMAIL_BODY_GLOBAL_LIMIT
    case Queue => EMAIL_BODY_QUEUE_LIMIT
    case Source(_) => EMAIL_BODY_SOURCE_LIMIT
  }

  /** The semaphore a source's reads share. */
  function SourceKey(namespace: string, sourceKey: string): string
  {
    namespace + "\0" + sourceKey
  }

  datatype Outcome = Finished | Refused | Cancelled

  datatype Phase =
    | TryingGlobal           // takes a free global permit, if there is one
    | TryingQueue            // there was none: takes a free queue permit or is refused
    | Queued                 // holds a queue permit, waits for a global one
    | Granted                // holds both, about to give the queue permit back
    | Admitted               // holds a global permit
    | AwaitingSource         // waits for a permit of its source
    | Reading                // holds a permit of its source as well
    | Done(outcome: Outcome)

  /** A read of local input, or of a reference that does not decode, has no source. */
  datatype Task = Task(source: Option<string>, phase: Phase)

  /** Permits are counted for the semaphores that exist; a source's is made on first use. */
  datatype State = State(permits: map<Semaphore, nat>, tasks: seq<Task>)

  const START := State(map[Global := EMAIL_BODY_GLOBAL_LIMIT, Queue := EMAIL_BODY_QUEUE_LIMIT], [])

  predicate Holds(task: Task, sem: Semaphore)
  {
    match sem
    case Global => task.phase.Granted? || task.phase.Admitted? || task.phase.AwaitingSource? || task.phase.Reading?
    case Queue => task.phase.Queued? || task.phase.Granted?
    case Source(key) => task.phase.Reading? && task.source == Some(key)
  }

  function Available(s: State, sem: Semaphore): nat
  {
    if sem in s.permits then s.permits[sem] else Limit(sem)
  }

  datatype Event =
    | Arrive(source: Option<string>)
    | TryGlobal(task: nat)
    | TryQueue(task: nat)
    | GrantGlobal(task: nat)
    | DropQueue(task: nat)
    | OpenSource(task: nat)
    | GrantSource(task: nat)
    | Finish(task: nat)
    | Cancel(task: nat)

  function Acquired(s: State, sem: Semaphore): State
    requires Available(s, sem) > 0
  {
    s.(permits := s.permits[sem := Available(s, sem) - 1])
  }

  function Released(s: State, sem: Semaphore): State
  {
    s.(permits := s.permits[sem := Available(s, sem) + 1])
  }

  function To(s: State, i: nat, phase: Phase): State
    requires i < |s.tasks|
  {
    s.(tasks := s.tasks[i := s.tasks[i].(phase := phase)])
  }

  /** Dropping a task's future drops every permit it holds. */
  function Dropped(s: State, task: Task): State
  {
    match task.phase
    case Queued => Released(s, Queue)
    case Granted => Released(Released(s, Queue), Global)
    case Admitted => Released(s, Global)
    case AwaitingSource => Released(s, Global)
    case Reading => if task.source.Some? then Released(Released(s, Source(task.source.value)), Global) else Released(s, Global)
    case _ => s
  }

  /** The state after an event, when the event can happen. */
  function Apply(s: State, e: Event): Option<State>
  {
    match e
    case Arrive(source) => Some(s.(tasks := s.tasks + [Task(source, TryingGlobal)]))
    case TryGlobal(i) =>
      if i >= |s.tasks| || s.tasks[i].phase != TryingGlobal then None
      else if Available(s, Global) > 0 then Some(To(Acquired(s, Global), i, Admitted))
      else Some(To(s, i, TryingQueue))
    case TryQueue(i) =>
      if i >= |s.tasks| || s.tasks[i].phase != TryingQueue then None
      else if Available(s, Queue) > 0 then Some(To(Acquired(s, Queue), i, Queued))
      else Some(To(s, i, Done(Refused)))
    case GrantGlobal(i) =>
      if i >= |s.tasks| || s.tasks[i].phase != Queued || Available(s, Global) == 0 then None
      else Some(To(Acquired(s, Global), i, Granted))
    case DropQueue(i) =>
      if i >= |s.tasks| || s.tasks[i].phase != Granted then None
      else Some(To(Released(s, Queue), i, Admitted))
    case OpenSource(i) =>
      if i >= |s.tasks| || s.tasks[i].phase != Admitted || s.tasks[i].source.None? then None
      else
        var sem := Source(s.tasks[i].source.value);
        var opened_ := if sem in s.permits then s else s.(permits := s.permits[sem := EMAIL_BODY_SOURCE_LIMIT]);
        Some(To(opened_, i, AwaitingSource))
    case GrantSource(i) =>
      if i >= |s.tasks| || s.tasks[i].phase != AwaitingSource || s.tasks[i].source.None?
         || Available(s, Source(s.tasks[i].source.value)) == 0 then None
      else Some(To(Acquired(s, Source(s.tasks[i].source.value)), i, Reading))
    case Finish(i) =>
      if i < |s.tasks| && (s.tasks[i].phase == Reading || (s.tasks[i].phase == Admitted && s.tasks[i].source.None?))
      then Some(To(Dropped(s, s.tasks[i]), i, Done(Finished))) else None
    case Cancel(i) =>
      if i < |s.tasks| && !s.tasks[i].phase.Done?
      then Some(To(Dropped(s, s.tasks[i]), i, Done(Cancelled))) else None
  }

  function Run(s: State, events: seq<Event>): Option<State>
    decreases |events|
  {
    if events == [] then Some(s)
    else
      var next := Apply(s, events[0]);
      if next.None? then None else Run(next.value, events[1..])
  }

  // ---- conservation ----

  function Count(tasks: seq<Task>, sem: Semaphore): (n: nat)
    ensures n <= |tasks|
  {
    if tasks == [] then 0
    else Count(tasks[..|tasks| - 1], sem) + if Holds(tasks[|tasks| - 1], sem) then 1 else 0
  }

  /** No permit is lost or made up, and only tasks with a source wait for one. */
  ghost predicate Conserved(s: State)
  {
    (forall sem :: Available(s, sem) + Count(s.tasks, sem) == Limit(sem))
    && (forall i :: 0 <= i < |s.tasks| ==>
          s.tasks[i].phase.AwaitingSource? || s.tasks[i].phase.Reading? ==> s.tasks[i].source.Some?)
  }

  lemma {:induction false} CountUpdate(tasks: seq<Task>, i: nat, task: Task, sem: Semaphore)
    requires i < |tasks|
    ensures Count(tasks[i := task], sem) + (if Holds(tasks[i], sem) then 1 else 0)
            == Count(tasks, sem) + if Holds(task, sem) then 1 else 0
    decreases |tasks|
  {
    hide Holds;
    var front := tasks[..|tasks| - 1];
    if i < |front| {
      CountUpdate(front, i, task, sem);
      assert tasks[i := task][..|front|] == front[i := task];
    } else {
      assert tasks[i := task][..|front|] == front;
    }
  }

  lemma {:induction false} CountHolder(tasks: seq<Task>, sem: Semaphore) returns (i: nat)
    requires Count(tasks, sem) > 0
    ensures i < |tasks| && Holds(tasks[i], sem)
    decreases |tasks|
  {
    hide Holds;
    i := |tasks| - 1;
    if !Holds(tasks[i], sem) {
      i := CountHolder(tasks[..i], sem);
    }
  }

  /** A task that holds anything has a count to give back. */
  lemma {:induction false} CountPositive(tasks: seq<Task>, i: nat, sem: Semaphore)
    requires i < |tasks| && Holds(tasks[i], sem)
    ensures Count(tasks, sem) > 0
    decreases |tasks|
  {
    hide Holds;
    if i < |tasks| - 1 {
      CountPositive(tasks[..|tasks| - 1], i, sem);
    }
  }

  /** How many permits of a semaphore a step takes away, on balance. */
  function Taken(before: Task, after: Task, sem: Semaphore): int
  {
    (if Holds(after, sem) then 1 else 0) - (if Holds(before, sem) then 1 else 0)
  }

  /** A step of one task takes exactly the permits that it then holds. */
  ghost predicate Balanced(s: State, i: nat, s': State)
  {
    && i < |s.tasks| && |s'.tasks| == |s.tasks|
    && s'.tasks == s.tasks[i := s'.tasks[i]]
    && (s'.tasks[i].phase.AwaitingSource? || s'.tasks[i].phase.Reading? ==> s'.tasks[i].source.Some?)
    && forall sem :: Available(s', sem) == Available(s, sem) - Taken(s.tasks[i], s'.tasks[i], sem)
  }

  lemma BalancedKeeps(s: State, i: nat, s': State)
    requires Conserved(s) && Balanced(s, i, s')
    ensures Conserved(s')
  {
    hide Available, Limit, Holds, Count;
    forall sem ensures Available(s', sem) + Count(s'.tasks, sem) == Limit(sem) {
      CountUpdate(s.tasks, i, s'.tasks[i], sem);
    }
  }

  lemma AdmissionBalanced(s: State, e: Event)
    requires Apply(s, e).Some? && (e.TryGlobal? || e.TryQueue? || e.GrantGlobal? || e.DropQueue?)
    ensures Balanced(s, e.task, Apply(s, e).value)
  {
  }

  lemma SourceBalanced(s: State, e: Event)
    requires Apply(s, e).Some? && (e.OpenSource? || e.GrantSource?)
    ensures Balanced(s, e.task, Apply(s, e).value)
  {
  }

  lemma EndBalanced(s: State, e: Event)
    requires Apply(s, e).Some? && (e.Finish? || e.Cancel?)
    requires s.tasks[e.task].phase.Reading? ==> s.tasks[e.task].source.Some?
    ensures Balanced(s, e.task, Apply(s, e).value)
  {
    hide Dropped, Available;
    DroppedGivesBack(s, s.tasks[e.task], Global);
    var s' := Apply(s, e).value;
    forall sem ensures Available(s', sem) == Available(s, sem) - Taken(s.tasks[e.task], s'.tasks[e.task], sem) {
      DroppedGivesBack(s, s.tasks[e.task], sem);
      SameAvailable(Dropped(s, s.tasks[e.task]), s', sem);
    }
  }

  lemma SameAvailable(s: State, s': State, sem: Semaphore)
    requires s.permits == s'.permits
    ensures Available(s, sem) == Available(s', sem)
  {
  }

  lemma ReleasedAt(s: State, given: Semaphore, sem: Semaphore)
    ensures Released(s, given).tasks == s.tasks
    ensures Available(Released(s, given), sem) == Available(s, sem) + if sem == given then 1 else 0
  {
  }

  lemma DroppedGivesBack(s: State, task: Task, sem: Semaphore)
    requires task.phase.Reading? ==> task.source.Some?
    ensures Dropped(s, task).tasks == s.tasks
    ensures Available(Dropped(s, task), sem) == Available(s, sem) + if Holds(task, sem) then 1 else 0
  {
    hide Released, Available;
    ReleasedAt(s, Queue, sem);
    ReleasedAt(Released(s, Queue), Global, sem);
    ReleasedAt(s, Global, sem);
    if task.phase.Reading? {
      var source := Source(task.source.value);
      ReleasedAt(s, source, sem);
      ReleasedAt(Released(s, source), Global, sem);
    }
  }

  lemma ArriveKeeps(s: State, source: Option<string>)
    requires Conserved(s)
    ensures Conserved(Apply(s, Arrive(source)).value)
  {
    var s' := Apply(s, Arrive(source)).value;
    assert s'.tasks[..|s.tasks|] == s.tasks;
    forall sem ensures Available(s', sem) + Count(s'.tasks, sem) == Limit(sem) {
      assert Available(s', sem) == Available(s, sem);
    }
  }

  lemma StepBalanced(s: State, e: Event)
    requires Conserved(s) && Apply(s, e).Some? && !e.Arrive?
    ensures Balanced(s, e.task, Apply(s, e).value)
  {
    hide Balanced;
    match e
    case OpenSource(_) | GrantSource(_) => SourceBalanced(s, e);
    case Finish(_) | Cancel(_) => EndBalanced(s, e);
    case _ => AdmissionBalanced(s, e);
  }

  lemma StepKeeps(s: State, e: Event)
    requires Conserved(s) && Apply(s, e).Some?
    ensures Conserved(Apply(s, e).value)
  {
    hide Apply, Conserved, Balanced;
    if e.Arrive? {
      ArriveKeeps(s, e.source);
    } else {
      StepBalanced(s, e);
      BalancedKeeps(s, e.task, Apply(s, e).value);
    }
  }

  lemma AwaitingHasSource(s: State, i: nat)
    requires Conserved(s) && i < |s.tasks|
    ensures s.tasks[i].phase.AwaitingSource? || s.tasks[i].phase.Reading? ==> s.tasks[i].source.Some?
  {
  }

  lemma {:induction false} RunKeeps(s: State, events: seq<Event>)
    requires Conserved(s) && Run(s, events).Some?
    ensures Conserved(Run(s, events).value)
    decreases |events|
  {
    hide Conserved, Apply;
    if events != [] {
      StepKeeps(s, events[0]);
      RunKeeps(Apply(s, events[0]).value, events[1..]);
    }
  }

  /** In every interleaving the permits held and free add up, so no limit is ever exceeded. */
  lemma NeverOverLimit(events: seq<Event>, sem: Semaphore)
    requires Run(START, events).Some?
    ensures var s := Run(START, events).value;
            Count(s.tasks, sem) + Available(s, sem) == Limit(sem)
  {
    assert Conserved(START);
    RunKeeps(START, events);
  }

  /** A read is refused exactly when all queue permits are held. It looks for one only after a
      moment in which all global permits were. */
  lemma RefusedIff(s: State, i: nat)
    requires Conserved(s) && i < |s.tasks|
    ensures s.tasks[i].phase == TryingGlobal ==>
              (Apply(s, TryGlobal(i)).value.tasks[i].phase == TryingQueue <==> Count(s.tasks, Global) == EMAIL_BODY_GLOBAL_LIMIT)
    ensures s.tasks[i].phase == TryingQueue ==>
              (Apply(s, TryQueue(i)).value.tasks[i].phase == Done(Refused) <==> Count(s.tasks, Queue) == EMAIL_BODY_QUEUE_LIMIT)
  {
    assert Available(s, Global) + Count(s.tasks, Global) == Limit(Global);
    assert Available(s, Queue) + Count(s.tasks, Queue) == Limit(Queue);
  }

  /** No other event refuses a read. */
  lemma OnlyTryQueueRefuses(s: State, e: Event, i: nat)
    requires Apply(s, e).Some? && i < |s.tasks|
    requires s.tasks[i].phase != Done(Refused) && Apply(s, e).value.tasks[i].phase == Done(Refused)
    ensures e == TryQueue(i) && s.tasks[i].phase == TryingQueue
  {
  }

  // ---- what the requests that arrived are promised ----

  /** The sources of the reads in the order of their arrival. */
  function Arrivals(events: seq<Event>): seq<Option<string>>
  {
    if events == [] then []
    else (if events[0].Arrive? then [events[0].source] else []) + Arrivals(events[1..])
  }

  function Sources(tasks: seq<Task>): (sources: seq<Option<string>>)
    ensures |sources| == |tasks|
    ensures forall i :: 0 <= i < |tasks| ==> sources[i] == tasks[i].source
  {
    if tasks == [] then [] else [tasks[0].source] + Sources(tasks[1..])
  }

  lemma StepTasks(s: State, e: Event)
    requires Apply(s, e).Some?
    ensures |Apply(s, e).value.tasks| == |s.tasks| + if e.Arrive? then 1 else 0
    ensures forall i :: 0 <= i < |s.tasks| ==> Apply(s, e).value.tasks[i].source == s.tasks[i].source
    ensures e.Arrive? ==> Apply(s, e).value.tasks[|s.tasks|].source == e.source
  {
    hide Available;
  }

  lemma StepSources(s: State, e: Event)
    requires Apply(s, e).Some?
    ensures Sources(Apply(s, e).value.tasks) == Sources(s.tasks) + if e.Arrive? then [e.source] else []
  {
    hide Apply, Sources;
    StepTasks(s, e);
  }

  /** The i-th read of a run has the source that the i-th arrival came with. */
  lemma {:induction false} SourceOfArrival(s: State, events: seq<Event>)
    requires Run(s, events).Some?
    ensures Sources(Run(s, events).value.tasks) == Sources(s.tasks) + Arrivals(events)
    decreases |events|
  {
    hide Apply, Sources;
    if events != [] {
      StepSources(s, events[0]);
      SourceOfArrival(Apply(s, events[0]).value, events[1..]);
    }
  }

  ghost function Holders(tasks: seq<Task>, sem: Semaphore): set<nat>
  {
    set i: nat | i < |tasks| && Holds(tasks[i], sem)
  }

  lemma {:induction false} CountIsSize(tasks: seq<Task>, sem: Semaphore)
    ensures |Holders(tasks, sem)| == Count(tasks, sem)
    decreases |tasks|
  {
    if tasks != [] {
      hide Holds;
      var n := |tasks| - 1;
      CountIsSize(tasks[..n], sem);
      var fewer := Holders(tasks[..n], sem);
      if Holds(tasks[n], sem) {
        assert Holders(tasks, sem) == fewer + {n};
      } else {
        assert Holders(tasks, sem) == fewer;
      }
    }
  }

  lemma {:induction false} SubsetSize(a: set<nat>, b: set<nat>)
    requires a <= b
    ensures |a| <= |b|
    decreases |b|
  {
    if a != {} {
      var x :| x in a;
      SubsetSize(a - {x}, b - {x});
    }
  }

  /** Tasks that all hold a permit of the semaphore are no more than its limit. */
  lemma HoldersWithin(events: seq<Event>, these: set<nat>, sem: Semaphore)
    requires Run(START, events).Some?
    requires forall i :: i in these ==>
               i < |Run(START, events).value.tasks| && Holds(Run(START, events).value.tasks[i], sem)
    ensures |these| <= Limit(sem)
  {
    var tasks := Run(START, events).value.tasks;
    NeverOverLimit(events, sem);
    CountIsSize(tasks, sem);
    SubsetSize(these, Holders(tasks, sem));
  }

  /** In every interleaving at most two of the reads that arrived for one source are reading. */
  lemma AtMostTwoRead(events: seq<Event>, key: string, these: set<nat>)
    requires Run(START, events).Some?
    requires forall i :: i in these ==> i < |Arrivals(events)| && Arrivals(events)[i] == Some(key)
    ensures |Arrivals(events)| == |Run(START, events).value.tasks|
    ensures (forall i :: i in these ==> Run(START, events).value.tasks[i].phase.Reading?) ==> |these| <= 2
  {
    SourceOfArrival(START, events);
    if forall i :: i in these ==> Run(START, events).value.tasks[i].phase.Reading? {
      HoldersWithin(events, these, Source(key));
    }
  }

  /** At most four reads are past the queue, and at most 32 are in it. */
  lemma AtMostFourAdmitted(events: seq<Event>, these: set<nat>)
    requires Run(START, events).Some?
    requires forall i :: i in these ==> i < |Run(START, events).value.tasks|
    ensures (forall i :: i in these ==>
               var phase := Run(START, events).value.tasks[i].phase;
               phase.Granted? || phase.Admitted? || phase.AwaitingSource? || phase.Reading?) ==> |these| <= 4
    ensures (forall i :: i in these ==>
               var phase := Run(START, events).value.tasks[i].phase;
               phase.Queued? || phase.Granted?) ==> |these| <= 32
  {
    var tasks := Run(START, events).value.tasks;
    if forall i :: i in these ==> Holds(tasks[i], Global) {
      HoldersWithin(events, these, Global);
    }
    if forall i :: i in these ==> Holds(tasks[i], Queue) {
      HoldersWithin(events, these, Queue);
    }
  }

  predicate PastSource(phase: Phase)
  {
    phase.Reading? || phase == Done(Finished)
  }

  lemma StepToSource(s: State, e: Event, i: nat)
    requires Apply(s, e).Some? && i < |Apply(s, e).value.tasks| && PastSource(Apply(s, e).value.tasks[i].phase)
    requires Apply(s, e).value.tasks[i].source.Some? && (i < |s.tasks| ==> !PastSource(s.tasks[i].phase))
    ensures e == GrantSource(i)
  {
  }

  /** A read with a source is done, or being done, only after it was granted a permit of it. */
  lemma {:induction false} ReadsOnlyWhenGranted(s: State, events: seq<Event>, i: nat) returns (k: nat)
    requires Run(s, events).Some? && i < |Run(s, events).value.tasks|
    requires Run(s, events).value.tasks[i].source.Some? && PastSource(Run(s, events).value.tasks[i].phase)
    requires i < |s.tasks| ==> !PastSource(s.tasks[i].phase)
    ensures k < |events| && events[k] == GrantSource(i)
    decreases |events|
  {
    hide Apply;
    var next := Apply(s, events[0]).value;
    if i < |next.tasks| && PastSource(next.tasks[i].phase) {
      SourceKept(next, events[1..], i);
      StepToSource(s, events[0], i);
      k := 0;
    } else {
      var m := ReadsOnlyWhenGranted(next, events[1..], i);
      k := m + 1;
    }
  }

  lemma SourceKept(s: State, events: seq<Event>, i: nat)
    requires Run(s, events).Some? && i < |s.tasks|
    ensures i < |Run(s, events).value.tasks| && Run(s, events).value.tasks[i].source == s.tasks[i].source
  {
    SourceOfArrival(s, events);
    assert Sources(Run(s, events).value.tasks)[i] == Sources(s.tasks)[i];
  }

  /** A read is cancelled by nothing but its own cancellation. */
  lemma OnlyCancelCancels(s: State, e: Event, i: nat)
    requires Apply(s, e).Some? && i < |s.tasks|
    requires s.tasks[i].phase != Done(Cancelled) && Apply(s, e).value.tasks[i].phase == Done(Cancelled)
    ensures e == Cancel(i)
  {
  }

  // ---- progress ----

  predicate Advances(s: State, e: Event)
  {
    Apply(s, e).Some? && !e.Arrive? && !e.Cancel?
  }

  /** While a read is unfinished, some read can go on, without a cancellation: a task that waits
      for a permit waits for a holder that can be followed until one is found that does not wait. */
  lemma NoDeadlock(s: State, i: nat) returns (e: Event)
    requires Conserved(s) && i < |s.tasks| && !s.tasks[i].phase.Done?
    ensures Advances(s, e)
  {
    hide Count, Conserved;
    match s.tasks[i].phase
    case TryingGlobal => e := TryGlobal(i);
    case TryingQueue => e := TryQueue(i);
    case Queued =>
      if Available(s, Global) > 0 {
        e := GrantGlobal(i);
      } else {
        var j := HolderOf(s, Global);
        e := AdmittedAdvances(s, j);
      }
    case _ => e := AdmittedAdvances(s, i);
  }

  lemma HolderOf(s: State, sem: Semaphore) returns (j: nat)
    requires Conserved(s) && Available(s, sem) == 0
    ensures j < |s.tasks| && Holds(s.tasks[j], sem)
  {
    assert Available(s, sem) + Count(s.tasks, sem) == Limit(sem);
    j := CountHolder(s.tasks, sem);
  }

  /** With a global permit in hand, the only wait left is for a reader of the same source. */
  lemma AdmittedAdvances(s: State, i: nat) returns (e: Event)
    requires Conserved(s) && i < |s.tasks| && Holds(s.tasks[i], Global)
    ensures Advances(s, e)
  {
    hide Count, Conserved;
    AwaitingHasSource(s, i);
    var task := s.tasks[i];
    match task.phase
    case Granted => e := DropQueue(i);
    case Admitted => e := if task.source.Some? then OpenSource(i) else Finish(i);
    case AwaitingSource =>
      if Available(s, Source(task.source.value)) > 0 {
        e := GrantSource(i);
      } else {
        var j := HolderOf(s, Source(task.source.value));
        e := Finish(j);
      }
    case Reading => e := Finish(i);
  }

  /** How many steps a read can still take. */
  function Rank(phase: Phase): nat
  {
    match phase
    case TryingGlobal => 7
    case TryingQueue => 6
    case Queued => 5
    case Granted => 4
    case Admitted => 3
    case AwaitingSource => 2
    case Reading => 1
    case Done(_) => 0
  }

  function Remaining(tasks: seq<Task>): nat
  {
    if tasks == [] then 0 else Remaining(tasks[..|tasks| - 1]) + Rank(tasks[|tasks| - 1].phase)
  }

  lemma {:induction false} RemainingUpdate(tasks: seq<Task>, i: nat, task: Task)
    requires i < |tasks|
    ensures Remaining(tasks[i := task]) + Rank(tasks[i].phase) == Remaining(tasks) + Rank(task.phase)
    decreases |tasks|
  {
    hide Rank;
    var front := tasks[..|tasks| - 1];
    if i < |front| {
      RemainingUpdate(front, i, task);
      assert tasks[i := task][..|front|] == front[i := task];
    } else {
      assert tasks[i := task][..|front|] == front;
    }
  }

  lemma StepDescends(s: State, e: Event)
    requires Apply(s, e).Some? && !e.Arrive?
    ensures Remaining(Apply(s, e).value.tasks) < Remaining(s.tasks)
  {
    hide Remaining;
    RemainingUpdate(s.tasks, e.task, Apply(s, e).value.tasks[e.task]);
  }

  /** Without new arrivals every run ends, after at most seven steps for each read. */
  lemma {:induction false} RunEnds(s: State, events: seq<Event>)
    requires Run(s, events).Some? && forall k :: 0 <= k < |events| ==> !events[k].Arrive?
    ensures |events| + Remaining(Run(s, events).value.tasks) <= Remaining(s.tasks)
    decreases |events|
  {
    hide Apply, Remaining;
    if events != [] {
      StepDescends(s, events[0]);
      RunEnds(Apply(s, events[0]).value, events[1..]);
    }
  }

  /** A run that has gone as far as it can has finished every read and holds no permit. */
  lemma StuckMeansDone(events: seq<Event>, sem: Semaphore)
    requires Run(START, events).Some?
    requires forall e :: !Advances(Run(START, events).value, e)
    ensures var s := Run(START, events).value;
            && (forall i :: 0 <= i < |s.tasks| ==> s.tasks[i].phase.Done?)
            && Available(s, sem) == Limit(sem)
  {
    hide Advances, Apply, Run;
    var s := Run(START, events).value;
    assert Conserved(START);
    RunKeeps(START, events);
    forall i | 0 <= i < |s.tasks| ensures s.tasks[i].phase.Done? {
      if !s.tasks[i].phase.Done? {
        var e := NoDeadlock(s, i);
        assert false;
      }
    }
    if Count(s.tasks, sem) > 0 {
      var i := CountHolder(s.tasks, sem);
      assert false;
    }
  }

  // ---- sources ----

  /** Two sources share a semaphore only if they are the same, unless a namespace has a NUL in it. */
  lemma SourceKeysDiffer(namespace: string, sourceKey: string, namespace': string, sourceKey': string)
    requires '\0' !in namespace && '\0' !in namespace'
    requires SourceKey(namespace, sourceKey) == SourceKey(namespace', sourceKey')
    ensures namespace == namespace' && sourceKey == sourceKey'
  {
    assert "\0" == ['\0'];
    Text.FindAfter(namespace, '\0', sourceKey);
    Text.FindAfter(namespace', '\0', sourceKey');
    var key := SourceKey(namespace, sourceKey);
    assert key[..|namespace|] == namespace && key[|namespace| + 1..] == sourceKey;
    assert key[..|namespace'|] == namespace' && key[|namespace'| + 1..] == sourceKey';
  }

  /** The second source's namespace reaches over a NUL into what is the first one's key. */
  ghost predicate Overlaps(namespace: string, sourceKey: string, namespace': string, sourceKey': string)
  {
    exists middle: string :: namespace' == namespace + "\0" + middle && sourceKey == middle + "\0" + sourceKey'
  }

  /** Two sources share a semaphore exactly when they are the same or overlap, for which a namespace
      and the other source's key must each have a NUL in them. */
  lemma SameSemaphoreIff(namespace: string, sourceKey: string, namespace': string, sourceKey': string)
    ensures SourceKey(namespace, sourceKey) == SourceKey(namespace', sourceKey') <==>
            (namespace == namespace' && sourceKey == sourceKey')
            || Overlaps(namespace, sourceKey, namespace', sourceKey')
            || Overlaps(namespace', sourceKey', namespace, sourceKey)
    ensures Overlaps(namespace, sourceKey, namespace', sourceKey') ==> '\0' in namespace' && '\0' in sourceKey
  {
    hide Overlaps, SourceKey;
    if Overlaps(namespace, sourceKey, namespace', sourceKey') {
      OverlapsShare(namespace, sourceKey, namespace', sourceKey');
    }
    if Overlaps(namespace', sourceKey', namespace, sourceKey) {
      OverlapsShare(namespace', sourceKey', namespace, sourceKey);
    }
    if SourceKey(namespace, sourceKey) == SourceKey(namespace', sourceKey') {
      if |namespace| <= |namespace'| {
        SharedOverlap(namespace, sourceKey, namespace', sourceKey');
      } else {
        SharedOverlap(namespace', sourceKey', namespace, sourceKey);
      }
    }
  }

  lemma OverlapsShare(namespace: string, sourceKey: string, namespace': string, sourceKey': string)
    requires Overlaps(namespace, sourceKey, namespace', sourceKey')
    ensures SourceKey(namespace, sourceKey) == SourceKey(namespace', sourceKey')
    ensures '\0' in namespace' && '\0' in sourceKey
  {
    var middle: string :| namespace' == namespace + "\0" + middle && sourceKey == middle + "\0" + sourceKey';
    assert namespace + "\0" + (middle + "\0" + sourceKey') == namespace + "\0" + middle + "\0" + sourceKey';
    assert namespace'[|namespace|] == '\0' && sourceKey[|middle|] == '\0';
  }

  lemma SharedOverlap(namespace: string, sourceKey: string, namespace': string, sourceKey': string)
    requires SourceKey(namespace, sourceKey) == SourceKey(namespace', sourceKey') && |namespace| <= |namespace'|
    ensures (namespace == namespace' && sourceKey == sourceKey') || Overlaps(namespace, sourceKey, namespace', sourceKey')
  {
    var key := SourceKey(namespace, sourceKey);
    assert key[..|namespace|] == namespace && key[|namespace| + 1..] == sourceKey && key[|namespace|] == '\0';
    assert key[..|namespace'|] == namespace' && key[|namespace'| + 1..] == sourceKey' && key[|namespace'|] == '\0';
    if |namespace| < |namespace'| {
      var middle := key[|namespace| + 1..|namespace'|];
      assert namespace' == namespace + "\0" + middle;
      assert sourceKey == middle + "\0" + sourceKey';
    }
  }

  /** Such a pair: `b` belongs to the namespace of the one and to the key of the other. */
  lemma TwoSourcesShare()
    ensures SourceKey("a", "b\0c") == SourceKey("a\0b", "c")
  {
    assert "a" + "\0" + "b\0c" == "a\0b" + "\0" + "c";
  }
}
