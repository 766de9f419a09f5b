/** The notification history of an MCP session (`SessionNotificationFanout`, src/daemon.rs). */
module Fanout {
  import opened Wrappers

  // A bounded buffer of numbered notifications that several readers follow by cursor. It refines the log
  // of everything ever received.

  const MCP_NOTIFICATION_HISTORY_LIMIT: nat := 256

  const U64_MAX: nat := 0xFFFF_FFFF_FFFF_FFFF

  datatype Stamped<T> = Stamped(number: nat, notification: T)

  // ---- the full log and what the buffer keeps of it ----

  /** The log position before which the buffer no longer reaches. */
  function Oldest<T>(log: seq<T>): (start: nat)
    ensures start <= |log| <= start + MCP_NOTIFICATION_HISTORY_LIMIT
  {
    if |log| > MCP_NOTIFICATION_HISTORY_LIMIT then |log| - MCP_NOTIFICATION_HISTORY_LIMIT else 0
  }

  /** Notifications are numbered from 1, and the counter saturates. */
  function Buffered<T>(log: seq<T>): seq<Stamped<T>>
  {
    seq(|log| - Oldest(log), k requires 0 <= k < |log| - Oldest(log) =>
      Stamped(Min(Oldest(log) + k + 1, U64_MAX), log[Oldest(log) + k]))
  }

  /** What a reader gets that has seen everything up to `cursor`: the log from there, as far
      back as the buffer reaches. A cursor at the counter's limit never gets anything again. */
  function Unseen<T>(log: seq<T>, cursor: nat): seq<T>
  {
    if cursor >= U64_MAX then [] else log[Min(Max(cursor, Oldest(log)), |log|)..]
  }

  class SessionNotificationFanout<T> {
    var nextSeq: nat
    var notifications: seq<Stamped<T>>
    /** Everything ever received. */
    ghost var log: seq<T>

    ghost predicate Valid()
      reads this
    {
      nextSeq == Min(|log|, U64_MAX) && notifications == Buffered(log)
    }

    constructor ()
      ensures Valid() && log == []
    {
      nextSeq, notifications, log := 0, [], [];
    }

    method Extend(items: seq<T>)
      requires Valid()
      modifies this
      ensures Valid() && log == old(log) + items
    {
      assert items[..0] == [];
      for i := 0 to |items|
        invariant Valid() && log == old(log) + items[..i]
      {
        ghost var before, known := notifications, log;
        nextSeq := if nextSeq < U64_MAX then nextSeq + 1 else U64_MAX;
        notifications := notifications + [Stamped(nextSeq, items[i])];
        while |notifications| > MCP_NOTIFICATION_HISTORY_LIMIT
          invariant log == known && nextSeq == Min(|log| + 1, U64_MAX) && |before| <= MCP_NOTIFICATION_HISTORY_LIMIT
          invariant notifications == before + [Stamped(nextSeq, items[i])]
                    || (|before| == MCP_NOTIFICATION_HISTORY_LIMIT && notifications == before[1..] + [Stamped(nextSeq, items[i])])
        {
          notifications := notifications[1..];
        }
        BufferedOneMore(log, items[i]);
        assert items[..i + 1] == items[..i] + [items[i]];
        assert log + [items[i]] == old(log) + items[..i + 1];
        log := log + [items[i]];
      }
      assert items[..|items|] == items;
    }

    method Since(cursor: nat) returns (items: seq<T>, next: nat)
      requires Valid()
      ensures items == Unseen(log, cursor) && next == Min(|log|, U64_MAX)
    {
      items := [];
      ghost var start := Oldest(log);
      for i := 0 to |notifications|
        invariant items == UnseenUpTo(log, cursor, start + i)
      {
        UnseenNext(log, cursor, start + i);
        if notifications[i].number > cursor {
          items := items + [notifications[i].notification];
        }
      }
      assert log[..|log|] == log;
      next := nextSeq;
    }
  }

  /** What `Unseen` holds of the first `end` log entries. */
  ghost function UnseenUpTo<T>(log: seq<T>, cursor: nat, end: nat): seq<T>
    requires Oldest(log) <= end <= |log|
  {
    if cursor >= U64_MAX then [] else log[Min(Max(cursor, Oldest(log)), end)..end]
  }

  lemma UnseenNext<T>(log: seq<T>, cursor: nat, end: nat)
    requires Oldest(log) <= end < |log|
    ensures UnseenUpTo(log, cursor, end + 1) ==
            UnseenUpTo(log, cursor, end) + if Min(end + 1, U64_MAX) > cursor then [log[end]] else []
  {
    var from := Max(cursor, Oldest(log));
    if from <= end {
      assert log[from..end + 1] == log[from..end] + [log[end]];
    }
  }

  /** One more notification pushes the oldest one out of a full buffer. */
  lemma BufferedOneMore<T>(log: seq<T>, item: T)
    ensures var pushed := Buffered(log) + [Stamped(Min(|log| + 1, U64_MAX), item)];
            Buffered(log + [item]) == if |log| >= MCP_NOTIFICATION_HISTORY_LIMIT then pushed[1..] else pushed
  {
  }

  /** Below the counter's limit the buffer's numbers are the last consecutive ones, ending with the
      counter, and each stands by the notification that came in with it. */
  lemma ConsecutiveNumbers<T>(fanout: SessionNotificationFanout<T>)
    requires fanout.Valid() && |fanout.log| <= U64_MAX
    ensures var buffer, n := fanout.notifications, fanout.nextSeq;
            && n == |fanout.log| && |buffer| == Min(n, 256)
            && forall k :: 0 <= k < |buffer| ==>
                 buffer[k].number == n - |buffer| + 1 + k && buffer[k].notification == fanout.log[buffer[k].number - 1]
  {
    var log, buffer := fanout.log, fanout.notifications;
    forall k | 0 <= k < |buffer|
      ensures buffer[k].number == |log| - |buffer| + 1 + k && buffer[k].notification == log[buffer[k].number - 1]
    {
      assert buffer[k] == Stamped(Min(Oldest(log) + k + 1, U64_MAX), log[Oldest(log) + k]);
    }
  }

  // ---- independent readers ----

  datatype Reader<T> = Reader(cursor: nat, seen: seq<T>)

  datatype World<T> = World(log: seq<T>, readers: map<nat, Reader<T>>)

  datatype Event<T> = Received(items: seq<T>) | Polled(reader: nat)

  /** What the buffer's methods do when notifications arrive and when a reader polls. */
  function Step<T>(w: World<T>, e: Event<T>): World<T>
  {
    match e
    case Received(items) => w.(log := w.log + items)
    case Polled(id) =>
      if id !in w.readers then w
      else
        var r := w.readers[id];
        w.(readers := w.readers[id := Reader(Min(|w.log|, U64_MAX), r.seen + Unseen(w.log, r.cursor))])
  }

  function Run<T>(w: World<T>, events: seq<Event<T>>): World<T>
    decreases |events|
  {
    if events == [] then w else Run(Step(w, events[0]), events[1..])
  }

  /** Whenever the reader polls, it is at most a full buffer behind. */
  predicate KeepsUp<T>(w: World<T>, events: seq<Event<T>>, id: nat)
    requires id in w.readers
    decreases |events|
  {
    events == []
    || ((events[0] == Polled(id) ==> |w.log| <= w.readers[id].cursor + MCP_NOTIFICATION_HISTORY_LIMIT)
        && KeepsUp(Step(w, events[0]), events[1..], id))
  }

  /** Over any run with any number of readers, a reader sees every notification between its first
      and its last cursor once and in order exactly when it keeps up; otherwise it misses some. */
  lemma {:induction false} ReaderSeesAllIff<T>(w: World<T>, events: seq<Event<T>>, id: nat)
    requires id in w.readers && w.readers[id].cursor <= |w.log|
    requires |Run(w, events).log| <= U64_MAX
    ensures var w' := Run(w, events);
            && w.log <= w'.log && id in w'.readers
            && var r, r' := w.readers[id], w'.readers[id];
            && r.cursor <= r'.cursor <= |w'.log|
            && |r'.seen| - |r.seen| <= r'.cursor - r.cursor
            && (KeepsUp(w, events, id) <==> |r'.seen| - |r.seen| == r'.cursor - r.cursor)
            && (KeepsUp(w, events, id) <==> r'.seen == r.seen + w'.log[r.cursor..r'.cursor])
    decreases |events|
  {
    hide Step;
    if events != [] {
      var next, w' := Step(w, events[0]), Run(w, events);
      LogGrows(next, events[1..]);
      OneStep(w, events[0], id);
      ReaderSeesAllIff(next, events[1..], id);
      var c, c1, c' := w.readers[id].cursor, next.readers[id].cursor, w'.readers[id].cursor;
      Slices(next.log, w'.log, c, c1, c');
      SeenInTwo(w.readers[id].seen, next.readers[id].seen, w'.readers[id].seen,
                next.log[c..c1], w'.log[c1..c'], w'.log[c..c']);
    }
  }

  lemma OneStep<T>(w: World<T>, e: Event<T>, id: nat)
    requires id in w.readers && w.readers[id].cursor <= |w.log|
    requires |Step(w, e).log| <= U64_MAX
    ensures var next := Step(w, e);
            && w.log <= next.log && id in next.readers
            && var r, r' := w.readers[id], next.readers[id];
            && r.cursor <= r'.cursor <= |next.log|
            && r.seen <= r'.seen && |r'.seen| - |r.seen| <= r'.cursor - r.cursor
            && (if e == Polled(id) && |w.log| > r.cursor + MCP_NOTIFICATION_HISTORY_LIMIT
                then |r'.seen| - |r.seen| < r'.cursor - r.cursor
                else r'.seen == r.seen + next.log[r.cursor..r'.cursor])
  {
    var r := w.readers[id];
    if e == Polled(id) {
      assert r.cursor == U64_MAX ==> w.log[r.cursor..] == [];
      assert w.log[r.cursor..] == w.log[r.cursor..|w.log|];
    }
  }

  lemma Slices<T>(front: seq<T>, log: seq<T>, a: nat, b: nat, c: nat)
    requires front <= log && a <= b <= c <= |log| && b <= |front|
    ensures front[a..b] + log[b..c] == log[a..c]
  {
  }

  lemma SeenInTwo<T>(seen: seq<T>, seen1: seq<T>, seen': seq<T>, first: seq<T>, rest: seq<T>, all: seq<T>)
    requires first + rest == all
    ensures seen1 == seen + first && seen' == seen1 + rest ==> seen' == seen + all
  {
    assert (seen + first) + rest == seen + (first + rest);
  }

  lemma {:induction false} LogGrows<T>(w: World<T>, events: seq<Event<T>>)
    ensures w.log <= Run(w, events).log
    decreases |events|
  {
    if events != [] {
      LogGrows(Step(w, events[0]), events[1..]);
    }
  }

  // ---- a reader that falls behind ----

  /** One more notification than the buffer holds, before a reader's first poll: it gets all but the
      oldest, and its cursor passes over that one. */
  lemma FallingBehindLoses<T>(items: seq<T>)
    requires |items| == 257
    ensures var w := Run(World([], map[0 := Reader(0, [])]), [Received(items), Polled(0)]);
            && w == World(items, map[0 := Reader(|items|, items[1..])])
            && !KeepsUp(World([], map[0 := Reader(0, [])]), [Received(items), Polled(0)], 0)
  {
    var w := World([], map[0 := Reader(0, [])]);
    var events: seq<Event<T>> := [Received(items), Polled(0)];
    var w1 := Step(w, events[0]);
    assert [] + items == items;
    assert w1 == World(items, w.readers);
    var w2 := Step(w1, events[1]);
    assert [] + items[1..] == items[1..];
    var later := events[1..];
    assert later[0] == Polled(0) && later[1..] == [];
    assert Run(w1, later) == Run(w2, later[1..]);
    assert w2 == World(items, map[0 := Reader(|items|, items[1..])]);
  }
}
