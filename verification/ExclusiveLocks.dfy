/** Key locks and singleflight initialisation of MCP stdio sessions (src/daemon.rs). */
module ExclusiveLocks {
  import opened Wrappers
  import Text

  // Tasks interleave with each other and with the collection of stale lock entries. A task clones
  // the entry of each of its sorted exclusive keys from the lock table and locks it, then does the
  // same with its session's init lock, and only then may create a session.

  datatype Resource = KeyLock(key: string) | InitLock(session: string)

  /** A lock object; two entries never share one, and a dropped one never comes back. */
  type LockId = nat

  type TaskId = nat

  datatype Phase =
    | Fetching               // about to look its next lock up in the table
    | Waiting(lock: LockId)  // holds a clone of the entry and waits to lock it
    | Checking               // holds every lock, looks for a live session
    | Creating               // found none, starts a process
    | Leaving                // about to drop its guards
    | Done

  datatype Task = Task(session: string, keys: seq<string>, held: seq<LockId>, phase: Phase)

  datatype State = State(
    table: map<Resource, LockId>,
    holders: map<LockId, TaskId>,
    tasks: map<TaskId, Task>,
    live: set<string>,
    nextLock: LockId)

  const START := State(map[], map[], map[], {}, 0)

  /** The i-th lock a task takes. */
  function Need(task: Task, i: nat): Resource
  {
    if i < |task.keys| then KeyLock(task.keys[i]) else InitLock(task.session)
  }

  function LockCount(task: Task): nat
  {
    |task.keys| + 1
  }

  /** What keeps an entry's reference count above one. */
  predicate Refers(task: Task, lock: LockId)
  {
    lock in task.held || task.phase == Waiting(lock)
  }

  datatype Event =
    | Arrive(task: TaskId, session: string, requested: seq<string>)
    | Fetch(task: TaskId)
    | Lock(task: TaskId)
    | Check(task: TaskId, reuse: bool)
    | Connect(task: TaskId, connected: bool)
    | Leave(task: TaskId)
    | Cancel(task: TaskId)
    | Collect(stale: set<Resource>)
    | EndSession(session: string)

  function WithTask(s: State, t: TaskId, task: Task): State
  {
    s.(tasks := s.tasks[t := task])
  }

  /** The guards of a task are dropped. */
  function Released(s: State, t: TaskId): State
    requires t in s.tasks
  {
    var task := s.tasks[t];
    s.(tasks := s.tasks[t := task.(held := [], phase := Done)],
       holders := map l | l in s.holders && l !in task.held :: s.holders[l])
  }

  /** The state after an event, when the event can happen. */
  function Apply(s: State, e: Event): Option<State>
  {
    match e
    case Arrive(t, session, requested) =>
      if t in s.tasks then None
      else Some(WithTask(s, t, Task(session, Text.SortDedup(requested), [], Fetching)))
    case Fetch(t) =>
      if t !in s.tasks || s.tasks[t].phase != Fetching then None
      else
        var task := s.tasks[t];
        var need := Need(task, |task.held|);
        if need in s.table then Some(WithTask(s, t, task.(phase := Waiting(s.table[need]))))
        else Some(WithTask(s.(table := s.table[need := s.nextLock], nextLock := s.nextLock + 1),
                           t, task.(phase := Waiting(s.nextLock))))
    case Lock(t) =>
      if t !in s.tasks || !s.tasks[t].phase.Waiting? || s.tasks[t].phase.lock in s.holders then None
      else
        var task := s.tasks[t];
        var held := task.held + [task.phase.lock];
        Some(WithTask(s.(holders := s.holders[task.phase.lock := t]), t,
                      task.(held := held, phase := if |held| == LockCount(task) then Checking else Fetching)))
    case Check(t, reuse) =>
      // A live session is reused, or its process has exited and the session is removed.
      if t !in s.tasks || s.tasks[t].phase != Checking then None
      else if s.tasks[t].session in s.live && reuse then Some(WithTask(s, t, s.tasks[t].(phase := Leaving)))
      else Some(WithTask(s.(live := s.live - {s.tasks[t].session}), t, s.tasks[t].(phase := Creating)))
    case Connect(t, connected) =>
      if t !in s.tasks || s.tasks[t].phase != Creating then None
      else Some(WithTask(s.(live := if connected then s.live + {s.tasks[t].session} else s.live),
                         t, s.tasks[t].(phase := Leaving)))
    case Leave(t) =>
      // With every key lock but not yet the init lock, a task may also leave: it could not
      // evict a rival, or it reuses the session.
      if t in s.tasks && (s.tasks[t].phase == Leaving
                          || (s.tasks[t].phase == Fetching && |s.tasks[t].held| == |s.tasks[t].keys|))
      then Some(Released(s, t)) else None
    case Cancel(t) =>
      if t in s.tasks && s.tasks[t].phase != Done then Some(Released(s, t)) else None
    case Collect(stale) =>
      if forall r :: r in stale ==> r in s.table && Unused(s, s.table[r])
      then Some(s.(table := s.table - stale)) else None
    case EndSession(session) => Some(s.(live := s.live - {session}))
  }

  predicate Unused(s: State, lock: LockId)
  {
    forall t :: t in s.tasks ==> !Refers(s.tasks[t], lock)
  }

  // ---- the invariant ----

  predicate PhaseFits(task: Task)
  {
    && |task.held| <= LockCount(task)
    && (task.phase.Fetching? || task.phase.Waiting? ==> |task.held| < LockCount(task))
    && (task.phase.Checking? || task.phase.Creating? || task.phase.Leaving? ==> |task.held| == LockCount(task))
    && (task.phase.Done? ==> task.held == [])
  }

  /** The lock a task holds or waits for is the one the table has for what it needs. */
  ghost predicate TaskFits(s: State, t: TaskId)
    requires t in s.tasks
  {
    var task := s.tasks[t];
    && PhaseFits(task)
    && Text.Ascending(task.keys)
    && (forall i :: 0 <= i < |task.held| ==>
          && Need(task, i) in s.table && s.table[Need(task, i)] == task.held[i]
          && task.held[i] in s.holders && s.holders[task.held[i]] == t)
    && (task.phase.Waiting? ==>
          Need(task, |task.held|) in s.table && s.table[Need(task, |task.held|)] == task.phase.lock)
    && (task.phase.Creating? ==> task.session !in s.live)
  }

  ghost predicate Invariant(s: State)
  {
    && (forall t :: t in s.tasks ==> TaskFits(s, t))
    && (forall l :: l in s.holders ==> s.holders[l] in s.tasks && l in s.tasks[s.holders[l]].held)
    && (forall r :: r in s.table ==> s.table[r] < s.nextLock)
    && (forall l :: l in s.holders ==> l < s.nextLock)
    && (forall r, r' :: r in s.table && r' in s.table && s.table[r] == s.table[r'] ==> r == r')
  }

  /** A task's locks are all different. */
  lemma NeedsDiffer(task: Task, i: nat, j: nat)
    requires Text.Ascending(task.keys) && i < j < LockCount(task)
    ensures Need(task, i) != Need(task, j)
  {
    Text.AscendingDistinct(task.keys);
  }

  /** A lock that is held belongs to one resource and one task. */
  lemma OneHolder(s: State, t: TaskId, i: nat, u: TaskId, j: nat)
    requires Invariant(s) && t in s.tasks && u in s.tasks
    requires i < |s.tasks[t].held| && j < |s.tasks[u].held|
    requires Need(s.tasks[t], i) == Need(s.tasks[u], j)
    ensures t == u && i == j
  {
    assert s.tasks[t].held[i] == s.tasks[u].held[j];
    if i < j {
      NeedsDiffer(s.tasks[t], i, j);
    } else if j < i {
      NeedsDiffer(s.tasks[t], j, i);
    }
  }

  /** Only its request decides which locks a task needs. */
  lemma SameNeeds(before: Task, after: Task)
    requires before.session == after.session && before.keys == after.keys
    ensures LockCount(before) == LockCount(after)
    ensures forall i: nat :: Need(before, i) == Need(after, i)
  {
  }

  /** A task that an event does not touch still fits, when its locks are still where they were. */
  lemma UntouchedFits(s: State, after: State, u: TaskId)
    requires u in s.tasks && u in after.tasks && s.tasks[u] == after.tasks[u] && TaskFits(s, u)
    requires forall i :: 0 <= i < |s.tasks[u].held| ==>
               && s.tasks[u].held[i] in after.holders && after.holders[s.tasks[u].held[i]] == u
    requires forall r :: r in s.table && Refers(s.tasks[u], s.table[r]) ==> r in after.table && after.table[r] == s.table[r]
    requires s.tasks[u].phase.Creating? ==> s.tasks[u].session !in after.live
    ensures TaskFits(after, u)
  {
  }

  /** The task of an event fits afterwards, when its guards are still where they were. */
  lemma MovedFits(s: State, after: State, t: TaskId)
    requires t in s.tasks && t in after.tasks && TaskFits(s, t)
    requires var task, moved := s.tasks[t], after.tasks[t];
             && moved == task.(phase := moved.phase) && PhaseFits(moved)
             && (moved.phase.Waiting? ==>
                   Need(task, |task.held|) in after.table && after.table[Need(task, |task.held|)] == moved.phase.lock)
             && (moved.phase.Creating? ==> task.session !in after.live)
    requires after.holders == s.holders
    requires forall r :: r in s.table ==> r in after.table && after.table[r] == s.table[r]
    ensures TaskFits(after, t)
  {
    SameNeeds(s.tasks[t], after.tasks[t]);
  }

  lemma FetchKeeps(s: State, t: TaskId)
    requires Invariant(s) && Apply(s, Fetch(t)).Some?
    ensures Invariant(Apply(s, Fetch(t)).value)
  {
    var after := Apply(s, Fetch(t)).value;
    assert TaskFits(s, t);
    MovedFits(s, after, t);
    forall u | u in after.tasks ensures TaskFits(after, u) {
      if u != t {
        UntouchedFits(s, after, u);
      }
    }
  }

  lemma LockKeeps(s: State, t: TaskId)
    requires Invariant(s) && Apply(s, Lock(t)).Some?
    ensures Invariant(Apply(s, Lock(t)).value)
  {
    var after := Apply(s, Lock(t)).value;
    SameNeeds(s.tasks[t], after.tasks[t]);
    assert TaskFits(s, t);
    forall u | u in after.tasks ensures TaskFits(after, u) {
      if u != t {
        UntouchedFits(s, after, u);
      }
    }
    forall l | l in after.holders ensures after.holders[l] in after.tasks && l in after.tasks[after.holders[l]].held {
      if l != s.tasks[t].phase.lock {
        assert l in s.holders;
      }
    }
  }

  lemma ReleaseKeeps(s: State, t: TaskId)
    requires Invariant(s) && t in s.tasks
    ensures Invariant(Released(s, t))
  {
    var after := Released(s, t);
    assert TaskFits(s, t);
    forall u | u in after.tasks ensures TaskFits(after, u) {
      if u != t {
        assert TaskFits(s, u);
        UntouchedFits(s, after, u);
      }
    }
    forall l | l in after.holders ensures after.holders[l] in after.tasks && l in after.tasks[after.holders[l]].held {
      assert l in s.tasks[s.holders[l]].held;
    }
  }

  lemma CollectKeeps(s: State, stale: set<Resource>)
    requires Invariant(s) && Apply(s, Collect(stale)).Some?
    ensures Invariant(Apply(s, Collect(stale)).value)
  {
    var after := Apply(s, Collect(stale)).value;
    forall u | u in after.tasks ensures TaskFits(after, u) {
      assert TaskFits(s, u);
      UntouchedFits(s, after, u);
    }
  }

  /** Creating a session while it is live is ruled out: only the holder of its init lock does it. */
  lemma ConnectKeeps(s: State, t: TaskId, connected: bool)
    requires Invariant(s) && Apply(s, Connect(t, connected)).Some?
    ensures Invariant(Apply(s, Connect(t, connected)).value)
  {
    var after := Apply(s, Connect(t, connected)).value;
    assert TaskFits(s, t);
    MovedFits(s, after, t);
    forall u | u in after.tasks ensures TaskFits(after, u) {
      assert TaskFits(s, u);
      if u != t {
        if s.tasks[u].phase.Creating? && s.tasks[u].session == s.tasks[t].session {
          OneHolder(s, t, |s.tasks[t].keys|, u, |s.tasks[u].keys|);
        }
        UntouchedFits(s, after, u);
      }
    }
  }

  lemma CheckKeeps(s: State, t: TaskId, reuse: bool)
    requires Invariant(s) && Apply(s, Check(t, reuse)).Some?
    ensures Invariant(Apply(s, Check(t, reuse)).value)
  {
    var after := Apply(s, Check(t, reuse)).value;
    assert TaskFits(s, t);
    MovedFits(s, after, t);
    forall u | u in after.tasks ensures TaskFits(after, u) {
      if u != t {
        UntouchedFits(s, after, u);
      }
    }
  }

  lemma ArriveKeeps(s: State, t: TaskId, session: string, requested: seq<string>)
    requires Invariant(s) && Apply(s, Arrive(t, session, requested)).Some?
    ensures Invariant(Apply(s, Arrive(t, session, requested)).value)
  {
    var after := Apply(s, Arrive(t, session, requested)).value;
    forall u | u in after.tasks ensures TaskFits(after, u) {
      if u != t {
        UntouchedFits(s, after, u);
      }
    }
  }

  lemma EndSessionKeeps(s: State, session: string)
    requires Invariant(s)
    ensures Invariant(s.(live := s.live - {session}))
  {
    var after := s.(live := s.live - {session});
    forall u | u in after.tasks ensures TaskFits(after, u) {
      UntouchedFits(s, after, u);
    }
  }

  lemma StepKeeps(s: State, e: Event)
    requires Invariant(s) && Apply(s, e).Some?
    ensures Invariant(Apply(s, e).value)
  {
    hide Invariant, Released;
    match e {
      case Arrive(t, session, requested) => ArriveKeeps(s, t, session, requested);
      case Fetch(t) => FetchKeeps(s, t);
      case Lock(t) => LockKeeps(s, t);
      case Check(t, reuse) => CheckKeeps(s, t, reuse);
      case Connect(t, connected) => ConnectKeeps(s, t, connected);
      case Leave(t) => ReleaseKeeps(s, t);
      case Cancel(t) => ReleaseKeeps(s, t);
      case Collect(stale) => CollectKeeps(s, stale);
      case EndSession(session) => EndSessionKeeps(s, session);
    }
  }

  // ---- every run ----

  /** The state after a sequence of events, when each of them can happen in turn. */
  function RunFrom(s: State, events: seq<Event>): Option<State>
  {
    if events == [] then Some(s)
    else
      var before := RunFrom(s, events[..|events| - 1]);
      if before.None? then None else Apply(before.value, events[|events| - 1])
  }

  function Run(events: seq<Event>): Option<State>
  {
    RunFrom(START, events)
  }

  lemma {:induction false} RunFromKeeps(s: State, events: seq<Event>)
    requires Invariant(s) && RunFrom(s, events).Some?
    ensures Invariant(RunFrom(s, events).value)
    decreases |events|
  {
    hide Invariant, Apply;
    if events != [] {
      RunFromKeeps(s, events[..|events| - 1]);
      StepKeeps(RunFrom(s, events[..|events| - 1]).value, events[|events| - 1]);
    }
  }

  lemma RunKeeps(events: seq<Event>)
    requires Run(events).Some?
    ensures Invariant(Run(events).value)
  {
    assert Invariant(START);
    RunFromKeeps(START, events);
  }

  /** The key locks of a task's request, or its init lock, are all held. */
  predicate Inside(task: Task, r: Resource)
  {
    match r
    case KeyLock(key) => key in task.keys && |task.held| >= |task.keys|
    case InitLock(session) => session == task.session && |task.held| == LockCount(task)
  }

  /** At most one task is past the locks of an exclusive key, and at most one initialises a
      session, however the lock table has been collected in between. */
  lemma MutualExclusion(events: seq<Event>, t: TaskId, u: TaskId, r: Resource)
    requires Run(events).Some?
    requires t in Run(events).value.tasks && Inside(Run(events).value.tasks[t], r)
    requires u in Run(events).value.tasks && Inside(Run(events).value.tasks[u], r)
    ensures t == u
  {
    RunKeeps(events);
    var s := Run(events).value;
    var i := PlaceOf(s.tasks[t], r);
    var j := PlaceOf(s.tasks[u], r);
    OneHolder(s, t, i, u, j);
  }

  lemma PlaceOf(task: Task, r: Resource) returns (i: nat)
    requires Inside(task, r)
    ensures i < |task.held| && Need(task, i) == r
  {
    match r {
      case KeyLock(key) => i :| 0 <= i < |task.keys| && task.keys[i] == key;
      case InitLock(session) => i := |task.keys|;
    }
  }

  /** The insertion that ends a creation never finds an entry for its session. */
  lemma InsertNeverOverwrites(events: seq<Event>, t: TaskId)
    requires Run(events + [Connect(t, true)]).Some?
    ensures Run(events).Some? && t in Run(events).value.tasks
    ensures Run(events).value.tasks[t].session !in Run(events).value.live
  {
    assert (events + [Connect(t, true)])[..|events|] == events;
    RunKeeps(events);
    assert TaskFits(Run(events).value, t);
  }

  // ---- what the requests that arrived are promised ----

  /** A task keeps the session and the keys it came with. */
  lemma StepKeepsRequest(s: State, e: Event, t: TaskId)
    requires Apply(s, e).Some? && t in s.tasks
    ensures t in Apply(s, e).value.tasks
    ensures Apply(s, e).value.tasks[t].session == s.tasks[t].session
    ensures Apply(s, e).value.tasks[t].keys == s.tasks[t].keys
  {
    hide Need, LockCount, Unused;
  }

  /** In every run a task locks exactly the keys that its arrival asked for, and the init lock of
      exactly that session. */
  lemma {:induction false} TaskOfArrival(events: seq<Event>, i: nat)
    requires Run(events).Some? && i < |events| && events[i].Arrive?
    ensures events[i].task in Run(events).value.tasks
    ensures var task := Run(events).value.tasks[events[i].task];
            && task.session == events[i].session
            && (forall key :: key in task.keys <==> key in events[i].requested)
    decreases |events|
  {
    var front, last := events[..|events| - 1], events[|events| - 1];
    if i < |front| {
      hide Apply;
      TaskOfArrival(front, i);
      StepKeepsRequest(Run(front).value, last, events[i].task);
    }
  }

  /** Every task of a run arrived in it. */
  lemma {:induction false} ArrivalOfTask(events: seq<Event>, t: TaskId) returns (i: nat)
    requires Run(events).Some? && t in Run(events).value.tasks
    ensures i < |events| && events[i].Arrive? && events[i].task == t
    decreases |events|
  {
    hide Need, LockCount, Unused;
    var front, last := events[..|events| - 1], events[|events| - 1];
    if t in Run(front).value.tasks {
      i := ArrivalOfTask(front, t);
    } else {
      i := |front|;
    }
  }

  /** No two arrivals are of the same task. */
  lemma {:induction false} ArrivalsDiffer(events: seq<Event>, i: nat, j: nat)
    requires Run(events).Some? && i < j < |events|
    requires events[i].Arrive? && events[j].Arrive?
    ensures events[i].task != events[j].task
    decreases |events|
  {
    var front := events[..|events| - 1];
    if j < |front| {
      ArrivalsDiffer(front, i, j);
    } else {
      TaskOfArrival(front, i);
    }
  }

  /** Past all its locks and not yet gone: it looks for a session, creates or hands it out. */
  predicate AtWork(task: Task)
  {
    task.phase.Checking? || task.phase.Creating? || task.phase.Leaving?
  }

  /** Of two requests for one session, or with a key in common, only one is at work at a time. */
  lemma RequestsExclude(events: seq<Event>, i: nat, j: nat)
    requires Run(events).Some? && i < |events| && j < |events| && i != j
    requires events[i].Arrive? && events[j].Arrive?
    requires events[i].session == events[j].session
             || exists key :: key in events[i].requested && key in events[j].requested
    ensures events[i].task in Run(events).value.tasks && events[j].task in Run(events).value.tasks
    ensures !AtWork(Run(events).value.tasks[events[i].task]) || !AtWork(Run(events).value.tasks[events[j].task])
  {
    hide Run;
    TaskOfArrival(events, i);
    TaskOfArrival(events, j);
    ArrivalsDiffer(events, if i < j then i else j, if i < j then j else i);
    RunKeeps(events);
    var s := Run(events).value;
    var t, u := events[i].task, events[j].task;
    if AtWork(s.tasks[t]) && AtWork(s.tasks[u]) {
      assert TaskFits(s, t) && TaskFits(s, u);
      if events[i].session == events[j].session {
        MutualExclusion(events, t, u, InitLock(events[i].session));
      } else {
        var key :| key in events[i].requested && key in events[j].requested;
        MutualExclusion(events, t, u, KeyLock(key));
      }
    }
  }

  /** The session is taken away: it ends by itself, or a check finds that it cannot be reused. */
  predicate Ends(tasks: map<TaskId, Task>, e: Event, session: string)
  {
    || e == EndSession(session)
    || (e.Check? && !e.reuse && e.task in tasks && tasks[e.task].session == session)
  }

  /** The session is created and entered. */
  predicate Begins(tasks: map<TaskId, Task>, e: Event, session: string)
  {
    e.Connect? && e.connected && e.task in tasks && tasks[e.task].session == session
  }

  lemma StepLives(s: State, e: Event, session: string)
    requires Apply(s, e).Some?
    ensures session in Apply(s, e).value.live <==>
            Begins(s.tasks, e, session) || (session in s.live && !Ends(s.tasks, e, session))
  {
    hide Need, LockCount, Unused;
  }

  /** An event of a run is of a task that the run knows. */
  lemma {:induction false} TaskOfEvent(events: seq<Event>, k: nat)
    requires Run(events).Some? && k < |events| && !events[k].Collect? && !events[k].EndSession?
    ensures events[k].task in Run(events).value.tasks
    decreases |events|
  {
    var front, last := events[..|events| - 1], events[|events| - 1];
    if k < |front| {
      hide Apply;
      TaskOfEvent(front, k);
      StepKeepsRequest(Run(front).value, last, events[k].task);
    }
  }

  /** What an event begins or ends can be told from the tasks later as well. */
  lemma SameLater(events: seq<Event>, k: nat, session: string)
    requires Run(events).Some? && k < |events|
    ensures var front, last, tasks := events[..|events| - 1], events[|events| - 1], Run(events).value.tasks;
            && Run(front).Some?
            && Begins(Run(front).value.tasks, events[k], session) == Begins(tasks, events[k], session)
            && Ends(Run(front).value.tasks, events[k], session) == Ends(tasks, events[k], session)
  {
    var front, last := events[..|events| - 1], events[|events| - 1];
    if events[k].Check? || events[k].Connect? {
      if k < |front| {
        TaskOfEvent(front, k);
      }
      StepKeepsRequest(Run(front).value, last, events[k].task);
    }
  }

  /** The session is live exactly when some task has created it and nothing has ended it since. */
  ghost predicate LivesOn(tasks: map<TaskId, Task>, events: seq<Event>, session: string)
  {
    exists i :: 0 <= i < |events| && Begins(tasks, events[i], session)
      && forall k :: i < k < |events| ==> !Ends(tasks, events[k], session)
  }

  lemma LivesOnStep(before: map<TaskId, Task>, front: seq<Event>, last: Event, tasks: map<TaskId, Task>, session: string)
    requires forall k :: 0 <= k <= |front| ==>
               && Begins(before, (front + [last])[k], session) == Begins(tasks, (front + [last])[k], session)
               && Ends(before, (front + [last])[k], session) == Ends(tasks, (front + [last])[k], session)
    ensures LivesOn(tasks, front + [last], session) <==>
            Begins(before, last, session) || (LivesOn(before, front, session) && !Ends(before, last, session))
  {
    hide Begins, Ends;
    var events := front + [last];
    if LivesOn(before, front, session) && !Ends(before, last, session) {
      var i :| 0 <= i < |front| && Begins(before, front[i], session)
        && forall k :: i < k < |front| ==> !Ends(before, front[k], session);
      assert Begins(tasks, events[i], session);
      forall k | i < k < |events| ensures !Ends(tasks, events[k], session) {
        assert k < |front| ==> events[k] == front[k];
      }
    }
    if LivesOn(tasks, events, session) && !Begins(before, last, session) {
      var i :| 0 <= i < |events| && Begins(tasks, events[i], session)
        && forall k :: i < k < |events| ==> !Ends(tasks, events[k], session);
      assert events[|front|] == last && Begins(before, front[i], session);
      forall k | i < k < |front| ensures !Ends(before, front[k], session) {
        assert events[k] == front[k];
      }
    }
    if Begins(before, last, session) {
      assert events[|front|] == last && Begins(tasks, events[|front|], session);
    }
  }

  lemma {:induction false} LiveIff(events: seq<Event>, session: string)
    requires Run(events).Some?
    ensures session in Run(events).value.live <==> LivesOn(Run(events).value.tasks, events, session)
    decreases |events|
  {
    if events != [] {
      var front, last := events[..|events| - 1], events[|events| - 1];
      LiveIff(front, session);
      StepLives(Run(front).value, last, session);
      var before, tasks := Run(front).value.tasks, Run(events).value.tasks;
      hide Run, Begins, Ends, LivesOn, Apply;
      assert events == front + [last];
      forall k | 0 <= k < |events|
        ensures Begins(before, events[k], session) == Begins(tasks, events[k], session)
        ensures Ends(before, events[k], session) == Ends(tasks, events[k], session)
      {
        SameLater(events, k, session);
      }
      LivesOnStep(before, front, last, tasks, session);
    }
  }

  /** Between two creations of a session, something has ended it. */
  lemma NeverCreatedTwice(events: seq<Event>, i: nat, t: TaskId, session: string)
    requires Run(events + [Connect(t, true)]).Some? && i < |events|
    requires Begins(Run(events + [Connect(t, true)]).value.tasks, events[i], session)
    requires Begins(Run(events + [Connect(t, true)]).value.tasks, Connect(t, true), session)
    ensures Run(events).Some?
    ensures exists k :: i < k < |events| && Ends(Run(events).value.tasks, events[k], session)
  {
    var all := events + [Connect(t, true)];
    assert all[..|all| - 1] == events;
    InsertNeverOverwrites(events, t);
    SameLater(all, i, session);
    SameLater(all, |events|, session);
    LiveIff(events, session);
  }

  /** A task past its locks creates a session exactly when none is live or the live one is not reused. */
  lemma CreatesIff(events: seq<Event>, t: TaskId, reuse: bool)
    requires Run(events + [Check(t, reuse)]).Some?
    ensures Run(events).Some? && t in Run(events).value.tasks
    ensures Run(events + [Check(t, reuse)]).value.tasks[t].phase ==
            if LivesOn(Run(events).value.tasks, events, Run(events).value.tasks[t].session) && reuse then Leaving else Creating
  {
    assert (events + [Check(t, reuse)])[..|events|] == events;
    LiveIff(events, Run(events).value.tasks[t].session);
  }

  // ---- no deadlock ----

  predicate Unfinished(s: State, t: TaskId)
  {
    t in s.tasks && !s.tasks[t].phase.Done?
  }

  predicate Blocked(s: State, t: TaskId)
    requires t in s.tasks
  {
    s.tasks[t].phase.Waiting? && s.tasks[t].phase.lock in s.holders
  }

  /** The next event of a task that is not blocked. */
  function NextEvent(task: Task, t: TaskId): Event
  {
    match task.phase
    case Fetching => Fetch(t)
    case Waiting(_) => Lock(t)
    case Checking => Check(t, true)
    case Creating => Connect(t, true)
    case _ => Leave(t)
  }

  /** The lock a task is to take next. */
  function Next(s: State, t: TaskId): Resource
    requires t in s.tasks
  {
    Need(s.tasks[t], |s.tasks[t].held|)
  }

  /** A blocked task waits for one that is unfinished and, if it is blocked too, waits for a
      lock further on. */
  lemma BlockedOn(s: State, t: TaskId) returns (u: TaskId)
    requires Invariant(s) && t in s.tasks && Blocked(s, t)
    ensures Unfinished(s, u)
    ensures Blocked(s, u) ==>
            Next(s, t).KeyLock? && (Next(s, u).KeyLock? ==> Text.Less(Next(s, t).key, Next(s, u).key))
  {
    assert TaskFits(s, t);
    var lock := s.tasks[t].phase.lock;
    u := s.holders[lock];
    assert TaskFits(s, u);
    var i :| 0 <= i < |s.tasks[u].held| && s.tasks[u].held[i] == lock;
    assert Need(s.tasks[u], i) == Next(s, t);
  }

  /** Among tasks that wait for keys there is one that waits for the largest. */
  lemma {:induction false} LastInLine(s: State, waiting: set<TaskId>) returns (t: TaskId)
    requires waiting != {}
    requires forall u :: u in waiting ==> u in s.tasks && Next(s, u).KeyLock?
    ensures t in waiting
    ensures forall u :: u in waiting ==> !Text.Less(Next(s, t).key, Next(s, u).key)
    decreases |waiting|
  {
    var first :| first in waiting;
    t := first;
    var mine := Next(s, first).key;
    Text.LessTotal(mine, mine);
    if waiting != {first} {
      var v := LastInLine(s, waiting - {first});
      var other := Next(s, v).key;
      Text.LessTotal(mine, other);
      if Text.Less(mine, other) {
        t := v;
      } else {
        forall u | u in waiting ensures !Text.Less(mine, Next(s, u).key) {
          var key := Next(s, u).key;
          Text.LessTotal(other, key);
          if Text.Less(mine, key) && Text.Less(key, other) {
            Text.LessTransitive(mine, key, other);
          }
        }
      }
    }
  }

  /** A task that is unfinished and not blocked can take its next step. */
  lemma CanStep(s: State, u: TaskId)
    requires Invariant(s) && Unfinished(s, u) && !Blocked(s, u)
    ensures Apply(s, NextEvent(s.tasks[u], u)).Some?
  {
  }

  lemma SomeUnblocked(s: State, t: TaskId) returns (u: TaskId)
    requires Invariant(s) && Unfinished(s, t)
    ensures Unfinished(s, u) && !Blocked(s, u)
  {
    hide Invariant, Next;
    var onKeys := set v | v in s.tasks && Blocked(s, v) && Next(s, v).KeyLock?;
    u := t;
    if onKeys != {} {
      var last := LastInLine(s, onKeys);
      u := BlockedOn(s, last);
      assert u !in onKeys;
    }
    if Blocked(s, u) {
      assert u !in onKeys;
      u := BlockedOn(s, u);
    }
  }

  /** While some task is unfinished, some unfinished task can take its next step. */
  lemma NoDeadlock(events: seq<Event>, t: TaskId) returns (u: TaskId)
    requires Run(events).Some? && Unfinished(Run(events).value, t)
    ensures Unfinished(Run(events).value, u)
    ensures Apply(Run(events).value, NextEvent(Run(events).value.tasks[u], u)).Some?
  {
    hide Invariant, Apply, Run;
    RunKeeps(events);
    u := SomeUnblocked(Run(events).value, t);
    CanStep(Run(events).value, u);
  }

  // ---- every run ends ----

  /** How many steps a task can still take: two for each lock, then the check, the creation and
      the leaving. */
  function Rank(task: Task): nat
  {
    match task.phase
    case Fetching => if |task.held| < LockCount(task) then 2 * (LockCount(task) - |task.held|) + 3 else 0
    case Waiting(_) => if |task.held| < LockCount(task) then 2 * (LockCount(task) - |task.held|) + 2 else 0
    case Checking => 3
    case Creating => 2
    case Leaving => 1
    case Done => 0
  }

  ghost function AnyTask(tasks: map<TaskId, Task>): (t: TaskId)
    requires tasks != map[]
    ensures t in tasks
  {
    var t :| t in tasks;
    t
  }

  /** The steps left to all tasks together. */
  ghost function Remaining(tasks: map<TaskId, Task>): nat
    decreases |tasks|
  {
    if tasks == map[] then 0
    else
      var t := AnyTask(tasks);
      Rank(tasks[t]) + Remaining(tasks - {t})
  }

  lemma {:induction false} RemainingWithout(tasks: map<TaskId, Task>, t: TaskId)
    requires t in tasks
    ensures Remaining(tasks) == Rank(tasks[t]) + Remaining(tasks - {t})
    decreases |tasks|
  {
    hide Rank;
    var u := AnyTask(tasks);
    if u != t {
      RemainingWithout(tasks - {u}, t);
      RemainingWithout(tasks - {t}, u);
      assert tasks - {u} - {t} == tasks - {t} - {u};
    }
  }

  lemma RemainingUpdate(tasks: map<TaskId, Task>, t: TaskId, task: Task)
    requires t in tasks
    ensures Remaining(tasks[t := task]) + Rank(tasks[t]) == Remaining(tasks) + Rank(task)
  {
    hide Rank, Remaining;
    RemainingWithout(tasks, t);
    RemainingWithout(tasks[t := task], t);
    assert tasks[t := task] - {t} == tasks - {t};
  }

  /** A step of a task, as opposed to what goes on around the tasks. */
  predicate OfTask(e: Event)
  {
    !e.Arrive? && !e.Collect? && !e.EndSession?
  }

  lemma StepDescends(s: State, e: Event)
    requires Invariant(s) && Apply(s, e).Some? && OfTask(e)
    ensures Remaining(Apply(s, e).value.tasks) < Remaining(s.tasks)
  {
    hide Remaining;
    assert TaskFits(s, e.task);
    var after := Apply(s, e).value;
    assert after.tasks == s.tasks[e.task := after.tasks[e.task]];
    RemainingUpdate(s.tasks, e.task, after.tasks[e.task]);
  }

  lemma AroundKeeps(s: State, e: Event)
    requires Apply(s, e).Some? && (e.Collect? || e.EndSession?)
    ensures Apply(s, e).value.tasks == s.tasks
  {
  }

  function TaskSteps(events: seq<Event>): nat
  {
    if events == [] then 0
    else TaskSteps(events[..|events| - 1]) + if OfTask(events[|events| - 1]) then 1 else 0
  }

  /** Without new arrivals the tasks can take only so many steps, whatever is collected and whatever
      sessions end in between. */
  lemma {:induction false} RunEnds(s: State, events: seq<Event>)
    requires Invariant(s) && RunFrom(s, events).Some?
    requires forall k :: 0 <= k < |events| ==> !events[k].Arrive?
    ensures TaskSteps(events) + Remaining(RunFrom(s, events).value.tasks) <= Remaining(s.tasks)
    decreases |events|
  {
    hide Invariant, Apply, Remaining;
    if events != [] {
      var front, last := events[..|events| - 1], events[|events| - 1];
      RunEnds(s, front);
      RunFromKeeps(s, front);
      var before := RunFrom(s, front).value;
      if OfTask(last) {
        StepDescends(before, last);
      } else {
        AroundKeeps(before, last);
      }
    }
  }

  predicate Advances(s: State, e: Event)
  {
    Apply(s, e).Some? && OfTask(e) && !e.Cancel?
  }

  /** A run in which no task can go on has finished every task, and no lock is held or waited for,
      so that the whole table could be collected. */
  lemma StuckMeansDone(events: seq<Event>)
    requires Run(events).Some?
    requires forall e :: !Advances(Run(events).value, e)
    ensures var s := Run(events).value;
            && (forall t :: t in s.tasks ==> s.tasks[t].phase.Done?)
            && s.holders == map[]
            && Apply(s, Collect(s.table.Keys)) == Some(s.(table := map[]))
  {
    hide Run, Invariant;
    RunKeeps(events);
    var s := Run(events).value;
    forall t | t in s.tasks ensures s.tasks[t].phase.Done? {
      if Unfinished(s, t) {
        var e := NextStep(events, t);
        assert false;
      }
    }
    DoneHoldsNothing(s);
    assert s.table - s.table.Keys == map[];
  }

  lemma NextStep(events: seq<Event>, t: TaskId) returns (e: Event)
    requires Run(events).Some? && Unfinished(Run(events).value, t)
    ensures Advances(Run(events).value, e)
  {
    hide Run;
    var u := NoDeadlock(events, t);
    e := NextEvent(Run(events).value.tasks[u], u);
  }

  lemma DoneHoldsNothing(s: State)
    requires Invariant(s) && forall t :: t in s.tasks ==> s.tasks[t].phase.Done?
    ensures s.holders == map[]
    ensures forall r :: r in s.table ==> Unused(s, s.table[r])
  {
    forall t | t in s.tasks ensures s.tasks[t].held == [] {
      assert TaskFits(s, t);
    }
    assert s.holders.Keys == {};
  }
}
