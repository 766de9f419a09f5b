/** The registry of the MCP stdio session manager (src/daemon.rs). */
module SessionRegistry {
  import opened Wrappers
  import Text

  // Live sessions, their snapshots, the owner of each exclusive key, and each session's own list of
  // keys are held in separate maps. Every manager call is one atomic step here; ExclusiveLocks.dfy
  // has the interleaving.

  /** `sessions` tells for each live session whether it may be reused. */
  datatype Registry = Registry(
    sessions: map<string, bool>,
    snapshots: set<string>,
    owners: map<string, string>,
    keyLists: map<string, seq<string>>)

  /** What the sessions' processes do while one call runs: `busy` sessions are locked by a
      request, `unkillable` ones do not exit when killed, `exited` ones have already exited,
      and `connects` says whether a new process starts. */
  datatype World = World(busy: set<string>, unkillable: set<string>, exited: set<string>, connects: bool)

  datatype Outcome = Created | Reused | Refused

  const EMPTY := Registry(map[], {}, map[], map[])

  function KeysOf(reg: Registry, session: string): seq<string>
  {
    if session in reg.keyLists then reg.keyLists[session] else []
  }

  /** A key maps to an owner exactly when it is in that owner's list, lists belong to live
      sessions, and the live sessions are those with a snapshot. */
  ghost predicate Consistent(reg: Registry)
  {
    && (forall k, s :: k in reg.owners && reg.owners[k] == s <==> k in KeysOf(reg, s))
    && reg.keyLists.Keys <= reg.sessions.Keys
    && reg.snapshots == reg.sessions.Keys
  }

  // ---- the registry after each operation ----

  function CleanedUp(reg: Registry, session: string): Registry
  {
    reg.(keyLists := reg.keyLists - {session},
         owners := map k | k in reg.owners && !(k in KeysOf(reg, session) && reg.owners[k] == session)
                       :: reg.owners[k])
  }

  /** The owner map once `session` has taken the keys. */
  function Claimed(owners: map<string, string>, session: string, keys: seq<string>): map<string, string>
  {
    map k | k in owners.Keys + (set x | x in keys) :: if k in keys then session else owners[k]
  }

  lemma ClaimedNext(owners: map<string, string>, session: string, keys: seq<string>, key: string)
    ensures Claimed(owners, session, keys + [key]) == Claimed(owners, session, keys)[key := session]
  {
  }

  function Registered(reg: Registry, session: string, keys: seq<string>): Registry
  {
    if keys == [] then reg
    else
      var clean := CleanedUp(reg, session);
      clean.(keyLists := clean.keyLists[session := keys],
             owners := Claimed(clean.owners, session, keys))
  }

  /** The new session is entered with its snapshot, still without keys. */
  function Entered(reg: Registry, session: string): Registry
  {
    reg.(sessions := reg.sessions[session := true], snapshots := reg.snapshots + {session})
  }

  /** A session that is gone from every map. */
  function Dropped(reg: Registry, session: string): Registry
  {
    var clean := CleanedUp(reg, session);
    clean.(sessions := clean.sessions - {session}, snapshots := clean.snapshots - {session})
  }

  function DroppedAll(reg: Registry, sessions: seq<string>): Registry
    decreases |sessions|
  {
    if sessions == [] then reg else DroppedAll(Dropped(reg, sessions[0]), sessions[1..])
  }

  function RivalOwners(reg: Registry, session: string, keys: seq<string>): (r: seq<string>)
    ensures forall o :: o in r <==> exists k :: k in keys && k in reg.owners && reg.owners[k] == o && o != session
  {
    if keys == [] then []
    else
      var rest := RivalOwners(reg, session, keys[1..]);
      if keys[0] in reg.owners && reg.owners[keys[0]] != session then [reg.owners[keys[0]]] + rest else rest
  }

  /** Entries that name an owner without a session. */
  function Forgotten(reg: Registry, owner: string, keys: seq<string>): Registry
  {
    CleanedUp(reg.(owners := map k | k in reg.owners && !(k in keys && reg.owners[k] == owner) :: reg.owners[k]), owner)
  }

  /** Owners are evicted in turn; the first that is busy or does not exit ends the call. */
  function Evicted(reg: Registry, keys: seq<string>, world: World, owners: seq<string>): (Registry, bool)
    decreases |owners|
  {
    if owners == [] then (reg, true)
    else if owners[0] !in reg.sessions then Evicted(Forgotten(reg, owners[0], keys), keys, world, owners[1..])
    else if owners[0] in world.busy || owners[0] in world.unkillable then (reg, false)
    else Evicted(Dropped(reg, owners[0]), keys, world, owners[1..])
  }

  function AfterEviction(reg: Registry, session: string, keys: seq<string>, world: World): (Registry, bool)
  {
    Evicted(reg, keys, world, Text.SortDedup(RivalOwners(reg, session, keys)))
  }

  function GetOrCreate(reg: Registry, session: string, keys: seq<string>, world: World): (Registry, Outcome)
  {
    var (reg1, evicted) := AfterEviction(reg, session, keys, world);
    if !evicted then (reg1, Refused)
    else if session in reg1.sessions && !reg1.sessions[session] then (reg1, Refused)
    else if session in reg1.sessions && session !in world.exited then (Registered(reg1, session, keys), Reused)
    else
      var reg2 := if session in reg1.sessions then Dropped(reg1, session) else reg1;
      if !world.connects then (reg2, Refused)
      else
        (Registered(Entered(reg2, session), session, keys), Created)
  }

  function Killed(reg: Registry, session: string, world: World): Registry
  {
    if session !in reg.sessions then reg
    else if session in world.unkillable then reg.(sessions := reg.sessions[session := false])
    else Dropped(reg, session)
  }

  // ---- the manager ----

  /** Keys are trimmed, blank ones dropped, `~` expanded, and the rest sorted and deduplicated. */
  function ExpandedKeys(expandTilde: string -> string, keys: seq<string>): seq<string>
  {
    if keys == [] then []
    else
      var trimmed := Text.Trim(keys[|keys| - 1]);
      ExpandedKeys(expandTilde, keys[..|keys| - 1]) + if trimmed == "" then [] else [expandTilde(trimmed)]
  }

  lemma {:induction false} ExpandedKeysAre(expandTilde: string -> string, keys: seq<string>)
    ensures forall x :: x in ExpandedKeys(expandTilde, keys) <==>
              exists k :: k in keys && Text.Trim(k) != "" && x == expandTilde(Text.Trim(k))
    decreases |keys|
  {
    hide Text.Trim;
    if keys != [] {
      var front, last := keys[..|keys| - 1], keys[|keys| - 1];
      ExpandedKeysAre(expandTilde, front);
      assert keys == front + [last];
      forall x ensures x in ExpandedKeys(expandTilde, keys) <==>
          exists k :: k in keys && Text.Trim(k) != "" && x == expandTilde(Text.Trim(k))
      {
        if x in ExpandedKeys(expandTilde, front) {
          var k :| k in front && Text.Trim(k) != "" && x == expandTilde(Text.Trim(k));
          assert k in keys;
        }
        assert last in keys;
      }
    }
  }

  method NormalizeExclusiveKeys(expandTilde: string -> string, keys: seq<string>) returns (out: seq<string>)
    ensures out == Text.SortDedup(ExpandedKeys(expandTilde, keys))
    ensures Text.Ascending(out)
    ensures forall x :: x in out <==> exists k :: k in keys && Text.Trim(k) != "" && x == expandTilde(Text.Trim(k))
  {
    ExpandedKeysAre(expandTilde, keys);
    out := [];
    for i := 0 to |keys|
      invariant out == ExpandedKeys(expandTilde, keys[..i])
    {
      assert keys[..i + 1][..i] == keys[..i];
      var trimmed := Text.Trim(keys[i]);
      if trimmed == "" {
        continue;
      }
      out := out + [expandTilde(trimmed)];
    }
    assert keys[..|keys|] == keys;
    out := Text.SortDedup(out);
  }

  datatype Contract = NotFetched | Unsupported | Available

  datatype ReapPolicy = SafeIdleReap | Stateful

  /** What idle cleanup looks at. */
  datatype Idle = Idle(busy: bool, idleTtl: nat, lastUsed: nat, contract: Contract, policy: Option<ReapPolicy>, snapshotAllows: bool)

  /** A session that is not busy is reaped when it has been idle for longer than its time to live, which
      is not zero, and its child has said that it may be: by its reap policy, by declaring no contract
      at all, or, if it is stateful, by its last snapshot. */
  predicate ReapDue(now: nat, idle: Idle)
  {
    && !idle.busy && idle.idleTtl > 0 && idle.lastUsed + idle.idleTtl < now
    && (|| idle.policy == Some(SafeIdleReap)
        || (idle.policy == None && idle.contract == Unsupported)
        || (idle.policy == Some(Stateful) && idle.contract != NotFetched && idle.snapshotAllows))
  }

  class McpSessionManager {
    var stdio: map<string, bool>
    var stdioSnapshots: set<string>
    var exclusiveOwners: map<string, string>
    var sessionExclusives: map<string, seq<string>>

    ghost function State(): Registry
      reads this
    {
      Registry(stdio, stdioSnapshots, exclusiveOwners, sessionExclusives)
    }

    constructor ()
      ensures State() == EMPTY
    {
      stdio, stdioSnapshots, exclusiveOwners, sessionExclusives := map[], {}, map[], map[];
    }

    method CleanupStdioExclusiveForSessionKey(session: string)
      modifies this
      ensures State() == CleanedUp(old(State()), session)
    {
      var keys := if session in sessionExclusives then sessionExclusives[session] else [];
      sessionExclusives := sessionExclusives - {session};
      for i := 0 to |keys|
        invariant stdio == old(stdio) && stdioSnapshots == old(stdioSnapshots)
        invariant sessionExclusives == old(sessionExclusives) - {session}
        invariant exclusiveOwners == map k | k in old(exclusiveOwners)
                    && !(k in keys[..i] && old(exclusiveOwners)[k] == session) :: old(exclusiveOwners)[k]
      {
        if keys[i] in exclusiveOwners && exclusiveOwners[keys[i]] == session {
          exclusiveOwners := exclusiveOwners - {keys[i]};
        }
      }
      assert keys[..|keys|] == keys;
    }

    method RegisterStdioExclusiveKeys(session: string, keys: seq<string>)
      modifies this
      ensures State() == Registered(old(State()), session, keys)
    {
      if keys == [] {
        return;
      }
      CleanupStdioExclusiveForSessionKey(session);
      ghost var clean := State();
      sessionExclusives := sessionExclusives[session := keys];
      assert Claimed(clean.owners, session, []) == clean.owners;
      for i := 0 to |keys|
        invariant stdio == clean.sessions && stdioSnapshots == clean.snapshots
        invariant sessionExclusives == clean.keyLists[session := keys]
        invariant exclusiveOwners == Claimed(clean.owners, session, keys[..i])
      {
        ClaimedNext(clean.owners, session, keys[..i], keys[i]);
        assert keys[..i + 1] == keys[..i] + [keys[i]];
        exclusiveOwners := exclusiveOwners[keys[i] := session];
      }
      assert keys[..|keys|] == keys;
    }

    method DropSession(session: string)
      modifies this
      ensures State() == Dropped(old(State()), session)
    {
      stdio := stdio - {session};
      CleanupStdioExclusiveForSessionKey(session);
      stdioSnapshots := stdioSnapshots - {session};
    }

    method EvictStdioExclusiveConflicts(session: string, keys: seq<string>, world: World) returns (ok: bool)
      modifies this
      ensures (State(), ok) == AfterEviction(old(State()), session, keys, world)
    {
      var found: seq<string> := [];
      for i := 0 to |keys|
        invariant RivalOwners(State(), session, keys) == found + RivalOwners(State(), session, keys[i..])
      {
        assert keys[i..][1..] == keys[i + 1..];
        if keys[i] in exclusiveOwners && exclusiveOwners[keys[i]] != session {
          found := found + [exclusiveOwners[keys[i]]];
        }
      }
      assert found == RivalOwners(State(), session, keys);
      var owners := Text.SortDedup(found);
      assert owners[0..] == owners;
      for i := 0 to |owners|
        invariant Evicted(old(State()), keys, world, owners) == Evicted(State(), keys, world, owners[i..])
      {
        assert owners[i..][1..] == owners[i + 1..];
        var owner := owners[i];
        if owner !in stdio {
          var stale := exclusiveOwners;
          exclusiveOwners := map k | k in stale && !(k in keys && stale[k] == owner) :: stale[k];
          CleanupStdioExclusiveForSessionKey(owner);
          continue;
        }
        if owner in world.busy || owner in world.unkillable {
          assert Evicted(State(), keys, world, owners[i..]) == (State(), false);
          return false;
        }
        DropSession(owner);
      }
      return true;
    }

    method GetOrCreateStdio(session: string, keys: seq<string>, world: World) returns (outcome: Outcome)
      modifies this
      ensures (State(), outcome) == GetOrCreate(old(State()), session, keys, world)
    {
      if keys != [] {
        var ok := EvictStdioExclusiveConflicts(session, keys, world);
        if !ok {
          return Refused;
        }
      }
      if session in stdio {
        if !stdio[session] {
          return Refused;
        }
        if session in world.exited {
          DropSession(session);
        } else {
          RegisterStdioExclusiveKeys(session, keys);
          return Reused;
        }
      }
      if !world.connects {
        return Refused;
      }
      stdio := stdio[session := true];
      stdioSnapshots := stdioSnapshots + {session};
      RegisterStdioExclusiveKeys(session, keys);
      return Created;
    }

    method KillStdioSession(session: string, world: World) returns (killed: bool)
      modifies this
      ensures State() == Killed(old(State()), session, world)
      ensures killed == (session in old(stdio) && session !in world.unkillable)
    {
      if session !in stdio {
        return false;
      }
      stdio := stdio[session := false];
      if session in world.unkillable {
        return false;
      }
      DropSession(session);
      assert stdio == old(stdio) - {session};
      return true;
    }

    /** The idle sessions are looked for one by one, in any order, and then dropped. */
    method CleanupIdle(now: nat, idle: string -> Idle) returns (reaped: seq<string>)
      modifies this
      ensures forall s :: s in reaped <==> s in old(stdio) && ReapDue(now, idle(s))
      ensures State() == DroppedAll(old(State()), reaped)
    {
      reaped := [];
      var left := stdio.Keys;
      while left != {}
        invariant left <= stdio.Keys == old(stdio).Keys && State() == old(State())
        invariant forall s :: s in reaped <==> s in stdio && s !in left && ReapDue(now, idle(s))
        decreases |left|
      {
        var session :| session in left;
        left := left - {session};
        var guard := idle(session);
        if !guard.busy {
          if guard.idleTtl == 0 {
            continue;
          }
          if now >= guard.idleTtl && guard.lastUsed < now - guard.idleTtl {
            var allowed := match (guard.contract, guard.policy)
              case (_, Some(SafeIdleReap)) => true
              case (Unsupported, None) => true
              case (NotFetched, _) => false
              case (Available, None) => false
              case (_, Some(Stateful)) => guard.snapshotAllows;
            if !allowed {
              continue;
            }
            reaped := reaped + [session];
          }
        }
      }
      for i := 0 to |reaped|
        invariant DroppedAll(old(State()), reaped) == DroppedAll(State(), reaped[i..])
      {
        assert reaped[i..][1..] == reaped[i + 1..];
        DropSession(reaped[i]);
      }
    }
  }

  // ---- what every operation keeps ----

  /** Idle cleanup takes exactly the sessions that are due out of every map. */
  lemma IdleReaped(reg: Registry, now: nat, idle: string -> Idle, reaped: seq<string>)
    requires Consistent(reg)
    requires forall s :: s in reaped <==> s in reg.sessions && ReapDue(now, idle(s))
    ensures DroppedAll(reg, reaped) == Without(reg, set s | s in reg.sessions && ReapDue(now, idle(s)))
    ensures Consistent(DroppedAll(reg, reaped))
  {
    DroppedAllIs(reg, reaped);
    assert (set s | s in reaped) == set s | s in reg.sessions && ReapDue(now, idle(s));
  }

  /** The registry with some sessions gone from it. */
  function Without(reg: Registry, gone: set<string>): Registry
  {
    Registry(reg.sessions - gone, reg.snapshots - gone,
             map k | k in reg.owners && reg.owners[k] !in gone :: reg.owners[k],
             reg.keyLists - gone)
  }

  lemma DroppedIs(reg: Registry, session: string)
    requires Consistent(reg)
    ensures Dropped(reg, session) == Without(reg, {session}) && Consistent(Dropped(reg, session))
  {
    var after := Dropped(reg, session);
    assert after.owners == Without(reg, {session}).owners;
    forall k, s ensures k in after.owners && after.owners[k] == s <==> k in KeysOf(after, s) {
      assert s != session ==> KeysOf(after, s) == KeysOf(reg, s);
    }
  }

  lemma {:induction false} DroppedAllIs(reg: Registry, sessions: seq<string>)
    requires Consistent(reg)
    ensures DroppedAll(reg, sessions) == Without(reg, set s | s in sessions) && Consistent(DroppedAll(reg, sessions))
    decreases |sessions|
  {
    if sessions != [] {
      DroppedIs(reg, sessions[0]);
      DroppedAllIs(Dropped(reg, sessions[0]), sessions[1..]);
      WithoutTwice(reg, sessions[0], sessions);
    } else {
      assert Without(reg, set s | s in sessions) == reg;
    }
  }

  lemma WithoutTwice(reg: Registry, first: string, sessions: seq<string>)
    requires sessions != [] && sessions[0] == first
    ensures Without(Without(reg, {first}), set s | s in sessions[1..]) == Without(reg, set s | s in sessions)
  {
    assert sessions == [first] + sessions[1..];
    assert (set s | s in sessions) == {first} + (set s | s in sessions[1..]);
  }

  /** Registering keys that nobody else owns. */
  lemma RegisteredConsistent(reg: Registry, session: string, keys: seq<string>)
    requires Consistent(reg) && session in reg.sessions
    requires forall k :: k in keys && k in reg.owners ==> reg.owners[k] == session
    ensures Consistent(Registered(reg, session, keys))
    ensures keys != [] ==> Registered(reg, session, keys).keyLists == reg.keyLists[session := keys]
  {
    var after := Registered(reg, session, keys);
    if keys != [] {
      forall k, s ensures k in after.owners && after.owners[k] == s <==> k in KeysOf(after, s) {
        assert s != session ==> KeysOf(after, s) == KeysOf(reg, s);
      }
    }
  }

  /** Eviction removes the owners up to the one that refuses, each from every map at once. */
  lemma {:induction false} EvictedIs(reg: Registry, keys: seq<string>, world: World, owners: seq<string>)
    returns (n: nat)
    requires Consistent(reg)
    requires forall o :: o in owners ==> o in reg.sessions
    requires forall i, j :: 0 <= i < j < |owners| ==> owners[i] != owners[j]
    ensures n <= |owners|
    ensures var (after, ok) := Evicted(reg, keys, world, owners);
            && after == Without(reg, set o | o in owners[..n])
            && Consistent(after)
            && (ok <==> n == |owners|)
            && (!ok ==> owners[n] in world.busy || owners[n] in world.unkillable)
    decreases |owners|
  {
    hide Dropped, Consistent, Forgotten;
    n := 0;
    if owners != [] && owners[0] !in world.busy && owners[0] !in world.unkillable {
      DroppedIs(reg, owners[0]);
      n := EvictedIs(Dropped(reg, owners[0]), keys, world, owners[1..]);
      n := n + 1;
      assert owners[..n][1..] == owners[1..][..n - 1];
      WithoutTwice(reg, owners[0], owners[..n]);
    } else {
      WithoutNone(reg, owners[..0]);
    }
  }

  lemma WithoutNone(reg: Registry, none: seq<string>)
    requires none == []
    ensures Without(reg, set o | o in none) == reg
  {
  }

  /** The sessions that own one of the requested keys beforehand. */
  ghost function Rivals(reg: Registry, session: string, keys: seq<string>): set<string>
  {
    set o | o in RivalOwners(reg, session, keys)
  }

  lemma AfterEvictionIs(reg: Registry, session: string, keys: seq<string>, world: World) returns (gone: set<string>)
    requires Consistent(reg)
    ensures gone <= Rivals(reg, session, keys)
    ensures var (after, ok) := AfterEviction(reg, session, keys, world);
            && after == Without(reg, gone) && Consistent(after)
            && (ok <==> Rivals(reg, session, keys) * (world.busy + world.unkillable) == {})
            && (ok ==> gone == Rivals(reg, session, keys))
  {
    var owners := Text.SortDedup(RivalOwners(reg, session, keys));
    Text.AscendingDistinct(owners);
    forall o | o in owners ensures o in reg.sessions {
      var k :| k in keys && k in reg.owners && reg.owners[k] == o;
      assert k in KeysOf(reg, o);
    }
    var n := EvictedIs(reg, keys, world, owners);
    gone := set o | o in owners[..n];
    assert forall o :: o in owners[..n] ==> o in owners;
    if n == |owners| {
      assert owners[..n] == owners;
      EvictedOnlyIfFree(reg, keys, world, owners);
    } else {
      assert owners[n] in Rivals(reg, session, keys) * (world.busy + world.unkillable);
    }
  }

  lemma {:induction false} EvictedOnlyIfFree(reg: Registry, keys: seq<string>, world: World, owners: seq<string>)
    requires Consistent(reg) && Evicted(reg, keys, world, owners).1
    requires forall o :: o in owners ==> o in reg.sessions
    requires forall i, j :: 0 <= i < j < |owners| ==> owners[i] != owners[j]
    ensures forall o :: o in owners ==> o !in world.busy && o !in world.unkillable
    decreases |owners|
  {
    if owners != [] {
      DroppedIs(reg, owners[0]);
      EvictedOnlyIfFree(Dropped(reg, owners[0]), keys, world, owners[1..]);
    }
  }

  /** When a call is refused. */
  ghost predicate MustRefuse(reg: Registry, session: string, keys: seq<string>, world: World)
  {
    || Rivals(reg, session, keys) * (world.busy + world.unkillable) != {}
    || (session in reg.sessions && !reg.sessions[session])
    || ((session !in reg.sessions || session in world.exited) && !world.connects)
  }

  /** Every session other than the caller's and its rivals keeps its state and its keys. */
  ghost predicate OthersKept(reg: Registry, after: Registry, session: string, rivals: set<string>)
  {
    forall s :: s !in rivals && s != session ==>
      && (s in after.sessions <==> s in reg.sessions)
      && (s in reg.sessions ==> after.sessions[s] == reg.sessions[s])
      && KeysOf(after, s) == KeysOf(reg, s)
  }

  /** The sessions and key lists after a call that succeeds. */
  ghost predicate Granted(reg: Registry, after: Registry, session: string, keys: seq<string>, reused: bool)
  {
    var rivals := Rivals(reg, session, keys);
    && after.sessions.Keys == reg.sessions.Keys - rivals + {session}
    && after.sessions[session]
    && after.keyLists == if keys != [] then (reg.keyLists - rivals)[session := keys]
                         else if reused then reg.keyLists
                         else reg.keyLists - {session}
  }

  /** A call succeeds exactly when no rival is busy or refuses to exit, the session is usable,
      and a new process starts where one is needed. The session then holds the requested keys,
      only its rivals are gone, and every other session is untouched, as after a refusal. */
  lemma GetOrCreateEffect(reg: Registry, session: string, keys: seq<string>, world: World)
    requires Consistent(reg)
    ensures var (after, outcome) := GetOrCreate(reg, session, keys, world);
            && Consistent(after)
            && (outcome.Refused? <==> MustRefuse(reg, session, keys, world))
            && (outcome.Reused? <==> !outcome.Refused? && session in reg.sessions && session !in world.exited)
            && (!outcome.Refused? ==> Granted(reg, after, session, keys, outcome.Reused?))
            && OthersKept(reg, after, session, Rivals(reg, session, keys))
  {
    hide Consistent, AfterEviction, Granted, Registered, Dropped, KeysOf, Entered;
    var gone := AfterEvictionIs(reg, session, keys, world);
    var (reg1, ok) := AfterEviction(reg, session, keys, world);
    var rivals := Rivals(reg, session, keys);
    assert session !in rivals;
    assert keys == [] ==> rivals == {};
    assert Without(reg, {}) == reg;
    WithoutKeeps(reg, gone, session, rivals);
    if ok && (session in reg1.sessions ==> reg1.sessions[session]) {
      if session in reg1.sessions && session !in world.exited {
        GrantAfterEviction(reg, session, keys, reg1);
      } else {
        var reg2 := if session in reg1.sessions then Dropped(reg1, session) else reg1;
        GoneBeforeCreation(reg, session, keys, reg1, reg2);
        if world.connects {
          GrantAfterCreation(reg, session, keys, reg1, reg2);
        }
      }
    }
  }

  lemma WithoutKeeps(reg: Registry, gone: set<string>, session: string, rivals: set<string>)
    requires gone <= rivals
    ensures OthersKept(reg, Without(reg, gone), session, rivals)
  {
  }

  lemma RivalsEvicted(reg: Registry, session: string, keys: seq<string>, reg1: Registry)
    requires reg1 == Without(reg, Rivals(reg, session, keys))
    ensures forall k :: k in keys && k in reg1.owners ==> reg1.owners[k] == session
  {
    forall k | k in keys && k in reg1.owners ensures reg1.owners[k] == session {
      assert reg1.owners[k] !in Rivals(reg, session, keys);
    }
  }

  lemma GrantAfterEviction(reg: Registry, session: string, keys: seq<string>, reg1: Registry)
    requires Consistent(reg) && Consistent(reg1) && reg1 == Without(reg, Rivals(reg, session, keys))
    requires session in reg1.sessions && reg1.sessions[session] && (keys == [] ==> reg1 == reg)
    ensures var after := Registered(reg1, session, keys);
            && Consistent(after) && Granted(reg, after, session, keys, true)
            && OthersKept(reg, after, session, Rivals(reg, session, keys))
  {
    RivalsEvicted(reg, session, keys, reg1);
    RegisteredConsistent(reg1, session, keys);
  }

  lemma GoneBeforeCreation(reg: Registry, session: string, keys: seq<string>, reg1: Registry, reg2: Registry)
    requires Consistent(reg) && Consistent(reg1) && reg1 == Without(reg, Rivals(reg, session, keys))
    requires reg2 == if session in reg1.sessions then Dropped(reg1, session) else reg1
    ensures Consistent(reg2) && reg2.sessions == reg1.sessions - {session} && reg2.keyLists == reg1.keyLists - {session}
    ensures forall k :: k in reg2.owners ==> k in reg1.owners && reg1.owners[k] == reg2.owners[k]
    ensures OthersKept(reg, reg2, session, Rivals(reg, session, keys))
  {
    if session in reg1.sessions {
      DroppedIs(reg1, session);
    }
  }

  lemma EnteredIs(reg: Registry, session: string, reg2: Registry, rivals: set<string>)
    requires Consistent(reg2) && session !in reg2.keyLists && OthersKept(reg, reg2, session, rivals)
    ensures Consistent(Entered(reg2, session)) && OthersKept(reg, Entered(reg2, session), session, rivals)
    ensures Entered(reg2, session).keyLists == reg2.keyLists && Entered(reg2, session).owners == reg2.owners
  {
    assert forall s :: KeysOf(Entered(reg2, session), s) == KeysOf(reg2, s);
  }

  lemma RegisteredKeepsOthers(reg: Registry, session: string, keys: seq<string>, reg3: Registry, rivals: set<string>)
    requires OthersKept(reg, reg3, session, rivals)
    ensures OthersKept(reg, Registered(reg3, session, keys), session, rivals)
    ensures Registered(reg3, session, keys).sessions == reg3.sessions
  {
    assert forall s :: s != session ==> KeysOf(Registered(reg3, session, keys), s) == KeysOf(reg3, s);
  }

  lemma GrantedNew(reg: Registry, session: string, keys: seq<string>, after: Registry)
    requires session !in Rivals(reg, session, keys)
    requires after.sessions == (reg.sessions - Rivals(reg, session, keys) - {session})[session := true]
    requires after.keyLists == if keys != [] then (reg.keyLists - Rivals(reg, session, keys) - {session})[session := keys]
                               else reg.keyLists - {session}
    ensures Granted(reg, after, session, keys, false)
  {
    var lists := reg.keyLists - Rivals(reg, session, keys);
    assert (lists - {session})[session := keys] == lists[session := keys];
  }

  lemma RegisteredLists(reg: Registry, session: string, keys: seq<string>)
    requires session !in reg.keyLists
    ensures Registered(reg, session, keys).keyLists
            == if keys != [] then reg.keyLists[session := keys] else reg.keyLists
  {
    if keys != [] {
      assert reg.keyLists - {session} == reg.keyLists;
    }
  }

  lemma GrantAfterCreation(reg: Registry, session: string, keys: seq<string>, reg1: Registry, reg2: Registry)
    requires Consistent(reg) && reg1 == Without(reg, Rivals(reg, session, keys))
    requires Consistent(reg2) && reg2.sessions == reg1.sessions - {session} && reg2.keyLists == reg1.keyLists - {session}
    requires forall k :: k in reg2.owners ==> k in reg1.owners && reg1.owners[k] == reg2.owners[k]
    requires OthersKept(reg, reg2, session, Rivals(reg, session, keys))
    requires session !in Rivals(reg, session, keys) && (keys == [] ==> reg1 == reg)
    ensures var after := Registered(Entered(reg2, session), session, keys);
            && Consistent(after) && Granted(reg, after, session, keys, false)
            && OthersKept(reg, after, session, Rivals(reg, session, keys))
  {
    var rivals := Rivals(reg, session, keys);
    var reg3 := Entered(reg2, session);
    EnteredIs(reg, session, reg2, rivals);
    RivalsEvicted(reg, session, keys, reg1);
    RegisteredConsistent(reg3, session, keys);
    RegisteredKeepsOthers(reg, session, keys, reg3, rivals);
    RegisteredLists(reg3, session, keys);
    GrantedNew(reg, session, keys, Registered(reg3, session, keys));
  }

  /** A session that exits is gone from every map; one that does not can only no longer be reused. */
  lemma KilledConsistent(reg: Registry, session: string, world: World)
    requires Consistent(reg)
    ensures var after := Killed(reg, session, world);
            && Consistent(after)
            && after.sessions.Keys == (if session in world.unkillable then reg.sessions.Keys else reg.sessions.Keys - {session})
            && (session !in world.unkillable ==> after == Without(reg, {session}))
            && (session in world.unkillable ==>
                  && after.owners == reg.owners && after.keyLists == reg.keyLists && after.snapshots == reg.snapshots
                  && forall s :: s in reg.sessions ==> after.sessions[s] == (s != session && reg.sessions[s]))
  {
    if session in reg.sessions && session !in world.unkillable {
      DroppedIs(reg, session);
    } else {
      assert forall s :: KeysOf(Killed(reg, session, world), s) == KeysOf(reg, s);
      if session !in world.unkillable {
        AbsentIsGone(reg, session);
      }
    }
  }

  lemma AbsentIsGone(reg: Registry, session: string)
    requires Consistent(reg) && session !in reg.sessions
    ensures Without(reg, {session}) == reg
  {
    var after := Without(reg, {session});
    assert after.keyLists == reg.keyLists && after.sessions == reg.sessions && after.snapshots == reg.snapshots;
    forall k | k in reg.owners ensures reg.owners[k] != session {
      assert k in KeysOf(reg, reg.owners[k]);
    }
    assert after.owners == reg.owners;
  }

  /** A session that did not exit is refused from then on, until a kill succeeds. */
  lemma FailedKillBlocks(reg: Registry, session: string, failed: World, keys: seq<string>, world: World)
    requires Consistent(reg) && session in reg.sessions && session in failed.unkillable
    ensures GetOrCreate(Killed(reg, session, failed), session, keys, world).1 == Refused
  {
    hide Consistent, GetOrCreate, Granted, OthersKept;
    KilledConsistent(reg, session, failed);
    GetOrCreateEffect(Killed(reg, session, failed), session, keys, world);
  }

  /** A session that was granted is reused by the next call for it, unless it has exited or a rival of
      that call stays. */
  lemma GrantedThenReused(reg: Registry, session: string, keys: seq<string>, world: World, keys': seq<string>, world': World)
    requires Consistent(reg) && GetOrCreate(reg, session, keys, world).1 != Refused
    ensures var after := GetOrCreate(reg, session, keys, world).0;
            && Consistent(after)
            && (session !in world'.exited && Rivals(after, session, keys') * (world'.busy + world'.unkillable) == {} ==>
                  GetOrCreate(after, session, keys', world').1 == Reused)
            && (keys' == keys ==> Rivals(after, session, keys') == {})
  {
    hide GetOrCreate, OthersKept;
    GetOrCreateEffect(reg, session, keys, world);
    var after := GetOrCreate(reg, session, keys, world).0;
    GetOrCreateEffect(after, session, keys', world');
    if keys' == keys {
      forall k | k in keys ensures k in after.owners && after.owners[k] == session {
        assert k in KeysOf(after, session);
      }
    }
  }

  // ---- every run of manager calls ----

  datatype Call =
    | GetOrCreateCall(session: string, keys: seq<string>, world: World)
    | KillCall(session: string, world: World)
    | CleanupCall(reaped: seq<string>)

  function Step(reg: Registry, call: Call): Registry
  {
    match call
    case GetOrCreateCall(session, keys, world) => GetOrCreate(reg, session, keys, world).0
    case KillCall(session, world) => Killed(reg, session, world)
    case CleanupCall(reaped) => DroppedAll(reg, reaped)
  }

  function Run(calls: seq<Call>): Registry
  {
    if calls == [] then EMPTY else Step(Run(calls[..|calls| - 1]), calls[|calls| - 1])
  }

  lemma {:induction false} RunConsistent(calls: seq<Call>)
    ensures Consistent(Run(calls))
    decreases |calls|
  {
    if calls != [] {
      var before := Run(calls[..|calls| - 1]);
      RunConsistent(calls[..|calls| - 1]);
      match calls[|calls| - 1] {
        case GetOrCreateCall(session, keys, world) => GetOrCreateEffect(before, session, keys, world);
        case KillCall(session, world) => KilledConsistent(before, session, world);
        case CleanupCall(reaped) => DroppedAllIs(before, reaped);
      }
    }
  }

  /** After any run of calls no two live sessions share an exclusive key. */
  lemma NoSharedKeys(calls: seq<Call>, s: string, t: string, k: string)
    requires k in KeysOf(Run(calls), s) && k in KeysOf(Run(calls), t)
    ensures s == t && s in Run(calls).sessions && s in Run(calls).snapshots
  {
    RunConsistent(calls);
    var reg := Run(calls);
    assert k in reg.owners && reg.owners[k] == s;
  }
}
