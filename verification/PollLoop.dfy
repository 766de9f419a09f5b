/** The poll loop of a managed source (src/daemon.rs). */
module PollLoop {
  import opened Wrappers

  // A checkpoint in memory, a durable checkpoint and event stream in the store, and runs that may end
  // anywhere, by a stop, a failure or a crash, and start again from what is durable.

  /** `position` is what the polling strategy remembers: cursor, watermark, seen keys, baseline. */
  datatype Checkpoint = Checkpoint(position: string, etag: Option<string>, etagSetAt: Option<nat>, consecutive304: nat)

  const DEFAULT := Checkpoint("", None, None, 0)

  const U32_MAX: nat := 0xFFFF_FFFF

  const ETAG_TTL_SECS: nat := 600

  const ETAG_MAX_CONSECUTIVE_304: nat := 3

  /** Turns a position and a response into the next position and the events emitted. */
  type Process = (string, string) -> Option<(string, seq<string>)>

  datatype Fetch =
    | Failed
    | NotModified
    | Response(data: string, etag: Option<string>)

  /** What becomes of a write: the transaction commits, or it does not and the run fails, or it
      commits but the run ends before it learns of it. */
  datatype Write = Committed | Refused | CommittedThenCrash

  /** One round of the loop, with what the outside world answers in it: the clock is read once before
      the request and once after a response. */
  datatype Round = Round(asked: nat, answered: nat, fetch: Fetch, write: Write)

  /** What is durable: the checkpoint, the stream, and, for the record, which fetches were
      committed. */
  datatype Disk = Disk(checkpoint: Option<Checkpoint>, events: seq<string>, committed: seq<Fetch>)

  const EMPTY_DISK := Disk(None, [], [])

  function Restored(disk: Disk): Checkpoint
  {
    if disk.checkpoint.Some? then disk.checkpoint.value else DEFAULT
  }

  predicate EtagStale(checkpoint: Checkpoint, now: nat)
  {
    && checkpoint.etag.Some?
    && (checkpoint.etagSetAt.Some? ==>
          || now - checkpoint.etagSetAt.value >= ETAG_TTL_SECS
          || checkpoint.consecutive304 >= ETAG_MAX_CONSECUTIVE_304)
  }

  function WithoutEtag(checkpoint: Checkpoint): Checkpoint
  {
    checkpoint.(etag := None, etagSetAt := None)
  }

  function BeforeFetch(checkpoint: Checkpoint, now: nat): Checkpoint
  {
    if EtagStale(checkpoint, now) then WithoutEtag(checkpoint) else checkpoint
  }

  function Saturating(n: nat): nat
  {
    if n < U32_MAX then n + 1 else n
  }

  /** The checkpoint and events that a fetch leads to; none when the response is not processed. */
  function Outcome(process: Process, checkpoint: Checkpoint, fetch: Fetch, now: nat): Option<(Checkpoint, seq<string>)>
  {
    match fetch
    case Failed => Some((checkpoint, []))
    case NotModified => Some((checkpoint.(consecutive304 := Saturating(checkpoint.consecutive304)), []))
    case Response(data, etag) =>
      var processed := process(checkpoint.position, data);
      if processed.None? then None
      else Some((Checkpoint(processed.value.0, etag, if etag.Some? then Some(now) else None, 0), processed.value.1))
  }

  /** The disk after a round, and the checkpoint in memory, unless the run has ended. */
  function AfterRound(process: Process, disk: Disk, memory: Checkpoint, round: Round): (Disk, Option<Checkpoint>)
  {
    var before := BeforeFetch(memory, round.asked);
    var outcome := Outcome(process, before, round.fetch, round.answered);
    if outcome.None? then (disk, None)
    else
      var (next, events) := outcome.value;
      if events == [] && next == before then (disk, Some(next))
      else
        var written := Disk(Some(next), disk.events + events, disk.committed + [round.fetch]);
        match round.write
        case Committed => (written, Some(next))
        case Refused => (disk, None)
        case CommittedThenCrash => (written, None)
  }

  /** The disk after a run of the loop over the given rounds. */
  function AfterRun(process: Process, disk: Disk, memory: Checkpoint, rounds: seq<Round>): Disk
    decreases |rounds|
  {
    if rounds == [] then disk
    else
      var (next, left) := AfterRound(process, disk, memory, rounds[0]);
      if left.None? then next else AfterRun(process, next, left.value, rounds[1..])
  }

  /** The disk after one run after another, each started from what is durable. */
  function AfterRuns(process: Process, runs: seq<seq<Round>>): Disk
    decreases |runs|
  {
    if runs == [] then EMPTY_DISK
    else
      var disk := AfterRuns(process, runs[..|runs| - 1]);
      AfterRun(process, disk, Restored(disk), runs[|runs| - 1])
  }

  // ---- the loop of the source ----

  class ManagedSourceStore {
    var checkpoint: Option<Checkpoint>
    var events: seq<string>
    ghost var committed: seq<Fetch>

    ghost function Durable(): Disk
      reads this
    {
      Disk(checkpoint, events, committed)
    }

    constructor ()
      ensures Durable() == EMPTY_DISK
    {
      checkpoint, events, committed := None, [], [];
    }

    /** The store's transaction: both the events and the checkpoint, or neither. */
    method AppendEventsAndStorePollCheckpoint(newEvents: seq<string>, next: Checkpoint, write: Write, ghost fetch: Fetch)
      modifies this
      ensures Durable() == if write.Refused? then old(Durable())
                           else Disk(Some(next), old(events) + newEvents, old(committed) + [fetch])
    {
      if !write.Refused? {
        checkpoint, events, committed := Some(next), events + newEvents, committed + [fetch];
      }
    }
  }

  method RunManagedSourcePoll(process: Process, store: ManagedSourceStore, rounds: seq<Round>)
    modifies store
    ensures store.Durable() == AfterRun(process, old(store.Durable()), Restored(old(store.Durable())), rounds)
  {
    var runner := if store.checkpoint.Some? then store.checkpoint.value else DEFAULT;
    for i := 0 to |rounds|
      invariant AfterRun(process, old(store.Durable()), Restored(old(store.Durable())), rounds)
                == AfterRun(process, store.Durable(), runner, rounds[i..])
    {
      assert rounds[i..][1..] == rounds[i + 1..];
      var round := rounds[i];
      ghost var memory := runner;
      if EtagStale(runner, round.asked) {
        runner := WithoutEtag(runner);
      }
      var previous := runner;
      var events: seq<string> := [];
      match round.fetch {
        case Failed =>
          assert AfterRound(process, store.Durable(), memory, round) == (store.Durable(), Some(runner));
          continue;
        case NotModified =>
          runner := runner.(consecutive304 := Saturating(runner.consecutive304));
        case Response(data, etag) =>
          runner := runner.(consecutive304 := 0, etag := etag, etagSetAt := if etag.Some? then Some(round.answered) else None);
          var processed := process(runner.position, data);
          if processed.None? {
            return;
          }
          runner := runner.(position := processed.value.0);
          events := processed.value.1;
      }
      assert Outcome(process, previous, round.fetch, round.answered) == Some((runner, events));
      if events != [] || runner != previous {
        store.AppendEventsAndStorePollCheckpoint(events, runner, round.write, round.fetch);
        if !round.write.Committed? {
          return;
        }
      }
    }
  }

  // ---- what holds across runs ----

  predicate SameButEtag(a: Checkpoint, b: Checkpoint)
  {
    WithoutEtag(a) == WithoutEtag(b)
  }

  /** What a loop without failures, restarts or lost writes would have made of the fetches. */
  function Replay(process: Process, fetches: seq<Fetch>): Option<(Checkpoint, seq<string>)>
    decreases |fetches|
  {
    if fetches == [] then Some((DEFAULT, []))
    else
      var before := Replay(process, fetches[..|fetches| - 1]);
      if before.None? then None
      else
        var outcome := Outcome(process, before.value.0, fetches[|fetches| - 1], 0);
        if outcome.None? then None
        else Some((outcome.value.0, before.value.1 + outcome.value.1))
  }

  /** The disk is what a replay of the committed fetches gives, up to the etag. */
  predicate Replays(process: Process, disk: Disk)
  {
    var replay := Replay(process, disk.committed);
    && replay.Some?
    && disk.events == replay.value.1
    && SameButEtag(Restored(disk), replay.value.0)
    && (disk.checkpoint.None? <==> disk.committed == [])
  }

  /** One round keeps the disk a replay, and the memory equal to the disk up to the etag. */
  lemma RoundKeeps(process: Process, disk: Disk, memory: Checkpoint, round: Round)
    requires Replays(process, disk) && SameButEtag(memory, Restored(disk))
    ensures var (next, left) := AfterRound(process, disk, memory, round);
            && Replays(process, next)
            && (left.Some? ==> SameButEtag(left.value, Restored(next)))
  {
    var next := AfterRound(process, disk, memory, round).0;
    if next != disk {
      assert next.committed[..|next.committed| - 1] == disk.committed;
      assert next.committed[|next.committed| - 1] == round.fetch;
    }
  }

  lemma {:induction false} RunKeeps(process: Process, disk: Disk, memory: Checkpoint, rounds: seq<Round>)
    requires Replays(process, disk) && SameButEtag(memory, Restored(disk))
    ensures Replays(process, AfterRun(process, disk, memory, rounds))
    decreases |rounds|
  {
    if rounds != [] {
      RoundKeeps(process, disk, memory, rounds[0]);
      var (next, left) := AfterRound(process, disk, memory, rounds[0]);
      if left.Some? {
        RunKeeps(process, next, left.value, rounds[1..]);
      }
    }
  }

  /** Whatever fails and however often the loop is restarted, the stream holds exactly the
      events of the committed responses, each once and in order, as an undisturbed loop that
      received those responses alone would have written them. */
  lemma {:induction false} RunsReplay(process: Process, runs: seq<seq<Round>>)
    ensures Replays(process, AfterRuns(process, runs))
    decreases |runs|
  {
    if runs != [] {
      RunsReplay(process, runs[..|runs| - 1]);
      var disk := AfterRuns(process, runs[..|runs| - 1]);
      RunKeeps(process, disk, Restored(disk), runs[|runs| - 1]);
    }
  }

  /** The checkpoint in memory after some rounds of a run, while it has not ended. */
  function MemoryAfter(process: Process, disk: Disk, memory: Checkpoint, rounds: seq<Round>): Option<Checkpoint>
    decreases |rounds|
  {
    if rounds == [] then Some(memory)
    else
      var (next, left) := AfterRound(process, disk, memory, rounds[0]);
      if left.None? then None else MemoryAfter(process, next, left.value, rounds[1..])
  }

  lemma {:induction false} MemoryKeeps(process: Process, disk: Disk, memory: Checkpoint, rounds: seq<Round>)
    requires Replays(process, disk) && SameButEtag(memory, Restored(disk))
    ensures var after := MemoryAfter(process, disk, memory, rounds);
            after.Some? ==> SameButEtag(after.value, Restored(AfterRun(process, disk, memory, rounds)))
    decreases |rounds|
  {
    if rounds != [] {
      RoundKeeps(process, disk, memory, rounds[0]);
      var (next, left) := AfterRound(process, disk, memory, rounds[0]);
      if left.Some? {
        MemoryKeeps(process, next, left.value, rounds[1..]);
      }
    }
  }

  /** At every loop head of every run the checkpoint in memory is the durable one, apart from
      the etag and its time. */
  lemma LoopHeadMatchesDisk(process: Process, runs: seq<seq<Round>>, rounds: seq<Round>)
    ensures var disk := AfterRuns(process, runs);
            var memory := MemoryAfter(process, disk, Restored(disk), rounds);
            memory.Some? ==> SameButEtag(memory.value, Restored(AfterRun(process, disk, Restored(disk), rounds)))
  {
    RunsReplay(process, runs);
    var disk := AfterRuns(process, runs);
    MemoryKeeps(process, disk, Restored(disk), rounds);
  }

  // ---- what a conditional request may rely on ----

  /** The etag of the last response among the fetches. */
  function LatestEtag(fetches: seq<Fetch>): Option<string>
    decreases |fetches|
  {
    if fetches == [] then None
    else if fetches[|fetches| - 1].Response? then fetches[|fetches| - 1].etag
    else LatestEtag(fetches[..|fetches| - 1])
  }

  predicate EtagFits(checkpoint: Checkpoint, committed: seq<Fetch>)
  {
    checkpoint.etag.Some? ==> checkpoint.etag == LatestEtag(committed)
  }

  lemma RoundKeepsEtag(process: Process, disk: Disk, memory: Checkpoint, round: Round)
    requires EtagFits(memory, disk.committed) && EtagFits(Restored(disk), disk.committed)
    ensures var (next, left) := AfterRound(process, disk, memory, round);
            && EtagFits(Restored(next), next.committed)
            && (left.Some? ==> EtagFits(left.value, next.committed))
  {
    var written := disk.committed + [round.fetch];
    assert written[..|written| - 1] == disk.committed && written[|written| - 1] == round.fetch;
  }

  lemma {:induction false} RunKeepsEtag(process: Process, disk: Disk, memory: Checkpoint, rounds: seq<Round>)
    requires EtagFits(memory, disk.committed) && EtagFits(Restored(disk), disk.committed)
    ensures var after := AfterRun(process, disk, memory, rounds);
            var left := MemoryAfter(process, disk, memory, rounds);
            && EtagFits(Restored(after), after.committed)
            && (left.Some? ==> EtagFits(left.value, after.committed))
    decreases |rounds|
  {
    if rounds != [] {
      RoundKeepsEtag(process, disk, memory, rounds[0]);
      var (next, left) := AfterRound(process, disk, memory, rounds[0]);
      if left.Some? {
        RunKeepsEtag(process, next, left.value, rounds[1..]);
      }
    }
  }

  lemma {:induction false} RunsKeepEtag(process: Process, runs: seq<seq<Round>>)
    ensures EtagFits(Restored(AfterRuns(process, runs)), AfterRuns(process, runs).committed)
    decreases |runs|
  {
    if runs != [] {
      RunsKeepEtag(process, runs[..|runs| - 1]);
      var disk := AfterRuns(process, runs[..|runs| - 1]);
      RunKeepsEtag(process, disk, Restored(disk), runs[|runs| - 1]);
    }
  }

  /** A conditional request, in whatever round of whatever run, carries the etag of the last
      committed response, so that a 304 never stands for events that are not in the stream; and
      only within the time allowed and after fewer than three 304s in a row. */
  lemma ConditionalRequest(process: Process, runs: seq<seq<Round>>, rounds: seq<Round>, now: nat)
    ensures var disk := AfterRuns(process, runs);
            var memory := MemoryAfter(process, disk, Restored(disk), rounds);
            memory.Some? && BeforeFetch(memory.value, now).etag.Some? ==>
              && BeforeFetch(memory.value, now).etag == LatestEtag(AfterRun(process, disk, Restored(disk), rounds).committed)
              && memory.value.etagSetAt.Some? && now - memory.value.etagSetAt.value < ETAG_TTL_SECS
              && memory.value.consecutive304 < ETAG_MAX_CONSECUTIVE_304
  {
    RunsKeepEtag(process, runs);
    var disk := AfterRuns(process, runs);
    RunKeepsEtag(process, disk, Restored(disk), rounds);
  }

  // ---- the stream, told from the responses alone ----

  /** The position and events that the responses lead to from a position, each processed where the
      one before it left off; none if one of them cannot be processed. */
  function Fold(process: Process, position: string, fetches: seq<Fetch>): Option<(string, seq<string>)>
    decreases |fetches|
  {
    if fetches == [] then Some((position, []))
    else if !fetches[0].Response? then Fold(process, position, fetches[1..])
    else
      var processed := process(position, fetches[0].data);
      if processed.None? then None
      else
        var rest := Fold(process, processed.value.0, fetches[1..]);
        if rest.None? then None else Some((rest.value.0, processed.value.1 + rest.value.1))
  }

  lemma {:induction false} FoldAppend(process: Process, position: string, a: seq<Fetch>, b: seq<Fetch>)
    requires Fold(process, position, a).Some?
    ensures var first := Fold(process, position, a).value;
            var second := Fold(process, first.0, b);
            Fold(process, position, a + b) == if second.None? then None else Some((second.value.0, first.1 + second.value.1))
    decreases |a|
  {
    if a == [] {
      assert a + b == b;
      var second := Fold(process, position, b);
      if second.Some? {
        assert [] + second.value.1 == second.value.1;
      }
    } else {
      assert (a + b)[1..] == a[1..] + b;
      if a[0].Response? {
        var processed := process(position, a[0].data).value;
        FoldAppend(process, processed.0, a[1..], b);
        var second := Fold(process, Fold(process, position, a).value.0, b);
        if second.Some? {
          var first := Fold(process, processed.0, a[1..]).value.1;
          assert processed.1 + (first + second.value.1) == processed.1 + first + second.value.1;
        }
      } else {
        FoldAppend(process, position, a[1..], b);
      }
    }
  }

  lemma {:induction false} ReplayFolds(process: Process, fetches: seq<Fetch>)
    requires Replay(process, fetches).Some?
    ensures Fold(process, "", fetches) == Some((Replay(process, fetches).value.0.position, Replay(process, fetches).value.1))
    decreases |fetches|
  {
    if fetches != [] {
      var front, last := fetches[..|fetches| - 1], fetches[|fetches| - 1];
      ReplayFolds(process, front);
      assert front + [last] == fetches;
      FoldAppend(process, "", front, [last]);
      FoldOne(process, Replay(process, front).value.0.position, last);
    }
  }

  lemma FoldOne(process: Process, position: string, fetch: Fetch)
    ensures !fetch.Response? ==> Fold(process, position, [fetch]) == Some((position, []))
    ensures fetch.Response? ==> Fold(process, position, [fetch]) == process(position, fetch.data)
  {
    if fetch.Response? && process(position, fetch.data).Some? {
      var processed := process(position, fetch.data).value;
      assert Fold(process, processed.0, []) == Some((processed.0, []));
      assert processed.1 + [] == processed.1;
    }
  }

  /** After any runs, the durable position and the stream are what processing the committed
      responses makes of them, each once, in order and from where the one before it left off. */
  lemma StreamIs(process: Process, runs: seq<seq<Round>>)
    ensures var disk := AfterRuns(process, runs);
            Fold(process, "", disk.committed) == Some((Restored(disk).position, disk.events))
  {
    RunsReplay(process, runs);
    ReplayFolds(process, AfterRuns(process, runs).committed);
  }

  function Fetches(rounds: seq<Round>): (fetches: seq<Fetch>)
    ensures |fetches| == |rounds|
    ensures forall k :: 0 <= k < |rounds| ==> fetches[k] == rounds[k].fetch
  {
    if rounds == [] then [] else [rounds[0].fetch] + Fetches(rounds[1..])
  }

  /** From the disk `before`, the responses of `rounds` have made the disk `after`. */
  predicate Took(process: Process, before: Disk, rounds: seq<Round>, after: Disk)
  {
    var taken := Fold(process, Restored(before).position, Fetches(rounds));
    taken.Some? && Restored(after).position == taken.value.0 && after.events == before.events + taken.value.1
  }

  /** A round has taken its response, or the run ends with nothing taken in it. */
  lemma RoundTakes(process: Process, disk: Disk, memory: Checkpoint, round: Round)
    requires memory.position == Restored(disk).position
    ensures var (next, left) := AfterRound(process, disk, memory, round);
            && (left.Some? ==>
                  && left.value.position == Restored(next).position
                  && Took(process, disk, [round], next)
                  && (!round.write.Committed? ==> next == disk))
            && (left.None? ==>
                  if round.write.CommittedThenCrash? && Fold(process, memory.position, [round.fetch]).Some?
                  then Took(process, disk, [round], next)
                  else next == disk)
            && (left.None? ==>
                  round.write.Refused? || round.write.CommittedThenCrash?
                  || Fold(process, memory.position, [round.fetch]).None?)
  {
    FoldOne(process, memory.position, round.fetch);
    assert Fetches([round]) == [round.fetch];
  }

  lemma TookNothing(process: Process, disk: Disk)
    ensures Took(process, disk, [], disk)
  {
  }

  lemma TookMore(process: Process, a: Disk, first: seq<Round>, b: Disk, second: seq<Round>, c: Disk)
    requires Took(process, a, first, b) && Took(process, b, second, c)
    ensures Took(process, a, first + second, c)
  {
    hide Fold;
    FetchesAppend(first, second);
    FoldAppend(process, Restored(a).position, Fetches(first), Fetches(second));
  }

  lemma FetchesAppend(first: seq<Round>, second: seq<Round>)
    ensures Fetches(first + second) == Fetches(first) + Fetches(second)
  {
    assert |Fetches(first + second)| == |Fetches(first)| + |Fetches(second)|;
  }

  /** Why a run has taken only the first n of its rounds: a write was refused, the run ended before
      it learnt of a write, or a response could not be processed. */
  predicate EndsBefore(process: Process, position: string, rounds: seq<Round>, n: nat)
    requires n < |rounds|
  {
    || rounds[n].write.Refused?
    || (n > 0 && rounds[n - 1].write.CommittedThenCrash?)
    || Fold(process, position, Fetches(rounds[..n + 1])).None?
  }

  /** A run takes the responses of its rounds one after another until it ends, and none after it. */
  lemma {:induction false} RunTakes(process: Process, disk: Disk, memory: Checkpoint, rounds: seq<Round>) returns (n: nat)
    requires memory.position == Restored(disk).position
    ensures n <= |rounds|
    ensures Took(process, disk, rounds[..n], AfterRun(process, disk, memory, rounds))
    ensures n < |rounds| ==> EndsBefore(process, memory.position, rounds, n)
    decreases |rounds|
  {
    hide Took, AfterRound, Fold;
    if rounds == [] {
      n := 0;
      TookNothing(process, disk);
      assert rounds[..0] == [];
      return;
    }
    RoundTakes(process, disk, memory, rounds[0]);
    var (next, left) := AfterRound(process, disk, memory, rounds[0]);
    assert rounds[..1] == [rounds[0]] && Fetches([rounds[0]]) == [rounds[0].fetch];
    if left.None? {
      if rounds[0].write.CommittedThenCrash? && Fold(process, memory.position, [rounds[0].fetch]).Some? {
        n := 1;
      } else {
        n := 0;
        TookNothing(process, disk);
        assert rounds[..0] == [];
      }
    } else {
      var m := RunTakes(process, next, left.value, rounds[1..]);
      n := m + 1;
      assert rounds[..n] == [rounds[0]] + rounds[1..][..m];
      TookMore(process, disk, [rounds[0]], next, rounds[1..][..m], AfterRun(process, disk, memory, rounds));
      if n < |rounds| {
        EndsLater(process, disk, next, rounds, m);
      }
    }
  }

  lemma EndsLater(process: Process, disk: Disk, next: Disk, rounds: seq<Round>, m: nat)
    requires m + 1 < |rounds| && Took(process, disk, [rounds[0]], next)
    requires EndsBefore(process, Restored(next).position, rounds[1..], m)
    ensures EndsBefore(process, Restored(disk).position, rounds, m + 1)
  {
    hide Fold;
    assert Fetches([rounds[0]]) == [rounds[0].fetch];
    assert Fetches(rounds[..m + 2]) == [rounds[0].fetch] + Fetches(rounds[1..][..m + 1]);
    FoldAppend(process, Restored(disk).position, [rounds[0].fetch], Fetches(rounds[1..][..m + 1]));
  }

  // ---- over all runs ----

  /** The rounds that the runs have taken, one run after another. */
  function Taken(runs: seq<seq<Round>>, counts: seq<nat>): seq<Round>
    requires |counts| == |runs| && forall i :: 0 <= i < |runs| ==> counts[i] <= |runs[i]|
    decreases |runs|
  {
    if runs == [] then []
    else Taken(runs[..|runs| - 1], counts[..|runs| - 1]) + runs[|runs| - 1][..counts[|runs| - 1]]
  }

  /** Across restarts the stream is what processing makes of the responses taken, run after run; each
      run takes its own from the first on, up to where it ended. */
  lemma {:induction false} RunsTake(process: Process, runs: seq<seq<Round>>) returns (counts: seq<nat>)
    ensures |counts| == |runs| && forall i :: 0 <= i < |runs| ==> counts[i] <= |runs[i]|
    ensures Took(process, EMPTY_DISK, Taken(runs, counts), AfterRuns(process, runs))
    ensures forall i :: 0 <= i < |runs| && counts[i] < |runs[i]| ==>
              EndsBefore(process, Restored(AfterRuns(process, runs[..i])).position, runs[i], counts[i])
    decreases |runs|
  {
    hide Took, EndsBefore, AfterRun;
    if runs == [] {
      counts := [];
      TookNothing(process, EMPTY_DISK);
    } else {
      var front, last := runs[..|runs| - 1], runs[|runs| - 1];
      var before := RunsTake(process, front);
      var disk := AfterRuns(process, front);
      var n := RunTakes(process, disk, Restored(disk), last);
      counts := before + [n];
      assert counts[..|front|] == before;
      TookMore(process, EMPTY_DISK, Taken(front, before), disk, last[..n], AfterRuns(process, runs));
      forall i | 0 <= i < |runs| && counts[i] < |runs[i]|
        ensures EndsBefore(process, Restored(AfterRuns(process, runs[..i])).position, runs[i], counts[i])
      {
        if i < |front| {
          assert front[..i] == runs[..i];
        }
      }
    }
  }

  // ---- one round, and the etag ----

  /** What a round makes durable: nothing when there is nothing to write or the write is refused, else
      the checkpoint and the events together; the run goes on only from what it knows to be durable. */
  predicate Writes(disk: Disk, round: Round, previous: Checkpoint, next: Checkpoint, events: seq<string>,
                   after: Disk, left: Option<Checkpoint>)
  {
    if events == [] && next == previous then after == disk && left == Some(next)
    else
      && (round.write.Refused? ==> after == disk && left.None?)
      && (!round.write.Refused? ==>
            && after.checkpoint == Some(next) && after.events == disk.events + events
            && after.committed == disk.committed + [round.fetch])
      && (round.write.Committed? ==> left == Some(next))
      && (round.write.CommittedThenCrash? ==> left.None?)
  }

  /** One round by what the fetch brings: nothing, a 304 that is counted, or a response that starts the
      count again and is remembered with its own etag and the time it arrived. */
  lemma RoundIs(process: Process, disk: Disk, memory: Checkpoint, round: Round)
    ensures var (after, left) := AfterRound(process, disk, memory, round);
            var previous := BeforeFetch(memory, round.asked);
            && (round.fetch.Failed? ==> after == disk && left == Some(previous))
            && (round.fetch.NotModified? ==>
                  var count := if memory.consecutive304 < 4294967295 then memory.consecutive304 + 1 else memory.consecutive304;
                  Writes(disk, round, previous, previous.(consecutive304 := count), [], after, left))
            && (round.fetch.Response? ==>
                  var processed := process(memory.position, round.fetch.data);
                  && (processed.None? ==> after == disk && left.None?)
                  && (processed.Some? ==>
                        var since := if round.fetch.etag.Some? then Some(round.answered) else None;
                        var next := Checkpoint(processed.value.0, round.fetch.etag, since, 0);
                        Writes(disk, round, previous, next, processed.value.1, after, left)))
  {
  }

  /** The etag goes along exactly when it is less than 600 seconds old and fewer than three 304s in
      a row have answered it; nothing else of the checkpoint changes before a request. */
  lemma EtagSentIff(checkpoint: Checkpoint, now: nat)
    ensures var sent := BeforeFetch(checkpoint, now);
            && sent.position == checkpoint.position && sent.consecutive304 == checkpoint.consecutive304
            && (sent.etag.Some? <==>
                  && checkpoint.etag.Some? && checkpoint.etagSetAt.Some?
                  && now < checkpoint.etagSetAt.value + 600 && checkpoint.consecutive304 < 3)
            && (sent.etag.Some? ==> sent == checkpoint)
            && (sent.etag.None? && checkpoint.etag.Some? ==> sent.etagSetAt.None?)
  {
  }

  /** The etag of a committed response is sent again for 600 seconds, until three rounds have been
      answered with 304, whatever requests fail in between. */
  lemma {:induction false} EtagLasts(process: Process, disk: Disk, memory: Checkpoint, rounds: seq<Round>, since: nat, now: nat)
    requires memory.etag.Some? && memory.etagSetAt == Some(since)
    requires forall k :: 0 <= k < |rounds| ==>
               !rounds[k].fetch.Response? && rounds[k].write.Committed? && rounds[k].asked < since + 600
    requires memory.consecutive304 + NotModifieds(rounds) < 3 && now < since + 600
    ensures MemoryAfter(process, disk, memory, rounds).Some?
    ensures BeforeFetch(MemoryAfter(process, disk, memory, rounds).value, now).etag == memory.etag
    decreases |rounds|
  {
    if rounds != [] {
      var (next, left) := AfterRound(process, disk, memory, rounds[0]);
      EtagLasts(process, next, left.value, rounds[1..], since, now);
    }
  }

  function NotModifieds(rounds: seq<Round>): nat
  {
    if rounds == [] then 0 else (if rounds[0].fetch.NotModified? then 1 else 0) + NotModifieds(rounds[1..])
  }
}
