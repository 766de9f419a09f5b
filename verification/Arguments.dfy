/** Argument assignments such as `a.b[0].c:=json` (src/cli.rs): a scanner turns the path
    text into segments, and an insertion builds the JSON object one path at a time. */
module Arguments {
  import opened Wrappers
  import opened Json
  import Text

  datatype Segment = Key(name: string) | Index(index: nat)

  type Path = seq<Segment>

  datatype Error =
    | EmptySegment
    | MissingBracket
    | IndexNotInteger
    | IndexTooLarge
    | EmptyKey
    | RootNotKey
    | Conflict
    | InvalidJson
    | PayloadNotObject

  const MAX_ARRAY_INDEX: nat := 10_000

  // ---- the path scanner ----

  function Prepend(front: Path, rest: Result<Path, Error>): (r: Result<Path, Error>)
    ensures front == [] ==> r == rest
    ensures rest == Ok([]) ==> r == Ok(front)
  {
    if rest.Ok? then
      assert front == [] ==> front + rest.value == rest.value;
      assert rest.value == [] ==> front + rest.value == front;
      Ok(front + rest.value)
    else rest
  }

  function Pending(current: string): Path
  {
    if current == "" then [] else [Key(current)]
  }

  /** What the scanner makes of the text still ahead of it, when `current` is the unfinished
      key and `closed` says that a bracket has just been closed. */
  function Scan(rest: string, current: string, closed: bool): (r: Result<Path, Error>)
    ensures r == Ok([]) ==> closed && rest == ""
    decreases |rest|
  {
    if rest == "" then
      if closed then Ok([])
      else if current == "" then Err(EmptySegment)
      else Ok([Key(current)])
    else if rest[0] == '.' then
      if current == "" && !closed then Err(EmptySegment)
      else Prepend(Pending(current), Scan(rest[1..], "", false))
    else if rest[0] == '[' then
      var close := Text.Find(rest[1..], "]");
      if close.None? then Err(MissingBracket)
      else
        var index := Text.ParseUsize(rest[1..][..close.value]);
        if index.None? then Err(IndexNotInteger)
        else if index.value > MAX_ARRAY_INDEX then Err(IndexTooLarge)
        else Prepend(Pending(current) + [Index(index.value)], Scan(rest[1..][close.value + 1..], "", true))
    else Scan(rest[1..], current + [rest[0]], false)
  }

  function Segments(rawKey: string): (r: Result<Path, Error>)
    ensures r.Ok? ==> r.value != []
  {
    if rawKey == "" then Err(EmptyKey) else Scan(rawKey, "", false)
  }

  /** `segments` is what has been scanned of `rawKey` before `index`. */
  predicate Scanned(rawKey: string, index: nat, segments: Path, current: string, closed: bool)
    requires index <= |rawKey|
  {
    Scan(rawKey, "", false) == Prepend(segments, Scan(rawKey[index..], current, closed))
  }

  lemma PrependTwice(a: Path, b: Path, rest: Result<Path, Error>)
    ensures Prepend(a, Prepend(b, rest)) == Prepend(a + b, rest)
  {
    if rest.Ok? {
      assert a + (b + rest.value) == a + b + rest.value;
    }
  }

  lemma ScanDot(rawKey: string, index: nat, segments: Path, current: string, closed: bool)
    requires index < |rawKey| && rawKey[index] == '.' && Scanned(rawKey, index, segments, current, closed)
    ensures if current == "" && !closed then Scan(rawKey, "", false) == Err(EmptySegment)
            else Scanned(rawKey, index + 1, segments + Pending(current), "", false)
  {
    assert rawKey[index..][1..] == rawKey[index + 1..];
    PrependTwice(segments, Pending(current), Scan(rawKey[index + 1..], "", false));
  }

  lemma ScanBracket(rawKey: string, index: nat, segments: Path, current: string, closed: bool, end: nat)
    requires index < |rawKey| && rawKey[index] == '[' && Scanned(rawKey, index, segments, current, closed)
    requires index < end <= |rawKey|
    requires Text.Find(rawKey[index + 1..], "]") == if end < |rawKey| then Some(end - index - 1) else None
    ensures if end == |rawKey| then Scan(rawKey, "", false) == Err(MissingBracket)
            else
              var n := Text.ParseUsize(rawKey[index + 1..end]);
              if n.None? then Scan(rawKey, "", false) == Err(IndexNotInteger)
              else if n.value > MAX_ARRAY_INDEX then Scan(rawKey, "", false) == Err(IndexTooLarge)
              else Scanned(rawKey, end + 1, segments + (Pending(current) + [Index(n.value)]), "", true)
  {
    assert rawKey[index..][1..] == rawKey[index + 1..];
    if end < |rawKey| {
      assert rawKey[index + 1..][..end - index - 1] == rawKey[index + 1..end];
      assert rawKey[index + 1..][end - index..] == rawKey[end + 1..];
      var n := Text.ParseUsize(rawKey[index + 1..end]);
      if n.Some? {
        PrependTwice(segments, Pending(current) + [Index(n.value)], Scan(rawKey[end + 1..], "", true));
      }
    }
  }

  lemma ScanOther(rawKey: string, index: nat, segments: Path, current: string, closed: bool)
    requires index < |rawKey| && rawKey[index] != '.' && rawKey[index] != '['
    requires Scanned(rawKey, index, segments, current, closed)
    ensures Scanned(rawKey, index + 1, segments, current + [rawKey[index]], false)
  {
    assert rawKey[index..][1..] == rawKey[index + 1..];
  }

  lemma ScanStart(rawKey: string)
    ensures Scanned(rawKey, 0, [], "", false)
  {
    assert rawKey[0..] == rawKey;
  }

  lemma ScanEnd(rawKey: string, segments: Path, current: string, closed: bool)
    requires Scanned(rawKey, |rawKey|, segments, current, closed)
    ensures Scan(rawKey, "", false) == if closed then Ok(segments)
                                       else if current == "" then Err(EmptySegment)
                                       else Ok(segments + [Key(current)])
  {
    assert rawKey[|rawKey|..] == "";
  }

  /** The scanner's inner loop: on to the first closing bracket, or to the end of the text. */
  method ClosingBracket(rawKey: string, start: nat) returns (index: nat)
    requires start <= |rawKey|
    ensures start <= index <= |rawKey|
    ensures Text.Find(rawKey[start..], "]") == if index < |rawKey| then Some(index - start) else None
  {
    index := start;
    while index < |rawKey| && rawKey[index] != ']'
      invariant start <= index <= |rawKey|
      invariant forall i :: start <= i < index ==> rawKey[i] != ']'
    {
      index := index + 1;
    }
    ghost var tail := rawKey[start..];
    forall i | 0 <= i < |tail| ensures Text.OccursAt(tail, "]", i) <==> tail[i] == ']' {
      Text.OccursSingle(tail, ']', i);
    }
  }

  method ParseSegments(rawKey: string) returns (r: Result<Path, Error>)
    ensures r == Segments(rawKey)
  {
    hide Scan, Scanned, Text.Find, Text.ParseUsize;
    var segments: Path := [];
    var current := "";
    var index := 0;
    var justClosedBracket := false;
    ScanStart(rawKey);
    while index < |rawKey|
      invariant 0 <= index <= |rawKey|
      invariant justClosedBracket ==> current == ""
      invariant index == 0 ==> segments == [] && current == "" && !justClosedBracket
      invariant Scanned(rawKey, index, segments, current, justClosedBracket)
      invariant 0 < index && current == "" && !justClosedBracket ==> rawKey[index - 1] == '.'
    {
      if rawKey[index] == '.' {
        ScanDot(rawKey, index, segments, current, justClosedBracket);
        if current == "" {
          if justClosedBracket {
            assert segments + Pending(current) == segments;
            justClosedBracket := false;
            index := index + 1;
            continue;
          }
          return Err(EmptySegment);
        }
        segments := segments + [Key(current)];
        current := "";
        justClosedBracket := false;
        index := index + 1;
      } else if rawKey[index] == '[' {
        ghost var open, before, pending, closed := index, segments, current, justClosedBracket;
        if current != "" {
          segments := segments + [Key(current)];
          current := "";
        }
        index := index + 1;
        var start := index;
        index := ClosingBracket(rawKey, start);
        ScanBracket(rawKey, open, before, pending, closed, index);
        if index >= |rawKey| {
          return Err(MissingBracket);
        }
        var indexValue := Text.ParseUsize(rawKey[start..index]);
        if indexValue.None? {
          return Err(IndexNotInteger);
        }
        if indexValue.value > MAX_ARRAY_INDEX {
          return Err(IndexTooLarge);
        }
        segments := segments + [Index(indexValue.value)];
        assert segments == before + (Pending(pending) + [Index(indexValue.value)]);
        justClosedBracket := true;
        index := index + 1;
      } else {
        ScanOther(rawKey, index, segments, current, justClosedBracket);
        current := current + [rawKey[index]];
        justClosedBracket := false;
        index := index + 1;
      }
    }
    ScanEnd(rawKey, segments, current, justClosedBracket);
    if justClosedBracket {
      return Ok(segments);
    }
    if current != "" {
      segments := segments + [Key(current)];
    } else if rawKey != "" && rawKey[|rawKey| - 1] == '.' {
      return Err(EmptySegment);
    }
    if segments == [] {
      return Err(EmptyKey);
    }
    return Ok(segments);
  }

  // ---- insertion at a path ----

  /** The tree an insertion leaves behind, and the error that stopped it, if one did. */
  datatype Placed = Placed(tree: Value, error: Option<Error>)

  function Nulls(n: nat): (r: seq<Value>)
    ensures |r| == n && forall i :: 0 <= i < n ==> r[i] == Null
  {
    seq(n, i => Null)
  }

  /** An array long enough to hold position `index`, padded with nulls where it was shorter. */
  function Pad(items: seq<Value>, index: nat): (r: seq<Value>)
    ensures |r| == if |items| <= index then index + 1 else |items|
    ensures forall i :: 0 <= i < |r| ==> r[i] == if i < |items| then items[i] else Null
  {
    if |items| <= index then items + Nulls(index + 1 - |items|) else items
  }

  function Put(target: Value, path: Path, value: Value): Placed
    decreases |path|
  {
    if path == [] then Placed(value, None)
    else match path[0]
      case Key(name) =>
        if !target.Object? && !target.Null? then Placed(target, Some(Conflict))
        else
          var fields := if target.Null? then map[] else target.fields;
          var child := Put(if name in fields then fields[name] else Null, path[1..], value);
          Placed(Object(fields[name := child.tree]), child.error)
      case Index(index) =>
        if !target.Array? && !target.Null? then Placed(target, Some(Conflict))
        else
          var items := Pad(if target.Null? then [] else target.items, index);
          var child := Put(items[index], path[1..], value);
          Placed(Array(items[index := child.tree]), child.error)
  }

  function Get(target: Value, path: Path): Option<Value>
    decreases |path|
  {
    if path == [] then Some(target)
    else match path[0]
      case Key(name) =>
        if target.Object? && name in target.fields then Get(target.fields[name], path[1..]) else None
      case Index(index) =>
        if target.Array? && index < |target.items| then Get(target.items[index], path[1..]) else None
  }

  method InsertSegments(target: Value, segments: Path, value: Value) returns (placed: Placed)
    ensures placed == Put(target, segments, value)
    decreases |segments|
  {
    if segments == [] {
      return Placed(value, None);
    }
    match segments[0] {
      case Key(name) =>
        var node := target;
        if !node.Object? {
          if node.Null? {
            node := Object(map[]);
          } else {
            return Placed(target, Some(Conflict));
          }
        }
        var entry := if name in node.fields then node.fields[name] else Null;
        var child := InsertSegments(entry, segments[1..], value);
        placed := Placed(Object(node.fields[name := child.tree]), child.error);
      case Index(index) =>
        var node := target;
        if !node.Array? {
          if node.Null? {
            node := Array([]);
          } else {
            return Placed(target, Some(Conflict));
          }
        }
        var items := node.items;
        while |items| <= index
          invariant |node.items| <= |items| && (|items| <= index + 1 || items == node.items)
          invariant forall i :: 0 <= i < |items| ==> items[i] == if i < |node.items| then node.items[i] else Null
        {
          items := items + [Null];
        }
        assert items == Pad(node.items, index);
        var child := InsertSegments(items[index], segments[1..], value);
        placed := Placed(Array(items[index := child.tree]), child.error);
    }
  }

  /** Inserting below the root object, whose first segment must be a key. */
  function PutArgument(root: map<string, Value>, rawKey: string, value: Value): (r: Placed)
    ensures r.tree.Object?
  {
    var segments := Segments(rawKey);
    if segments.Err? then Placed(Object(root), Some(segments.error))
    else if segments.value[0].Index? then Placed(Object(root), Some(RootNotKey))
    else Put(Object(root), segments.value, value)
  }

  class ArgumentMap {
    var fields: map<string, Value>

    constructor ()
      ensures fields == map[]
    {
      fields := map[];
    }

    method InsertArgumentPath(rawKey: string, value: Value) returns (error: Option<Error>)
      modifies this
      ensures Placed(Object(fields), error) == PutArgument(old(fields), rawKey, value)
    {
      var segments := ParseSegments(rawKey);
      if segments.Err? {
        return Some(segments.error);
      }
      if segments.value[0].Index? {
        return Some(RootNotKey);
      }
      var name := segments.value[0].name;
      var entry := if name in fields then fields[name] else Null;
      var child := InsertSegments(entry, segments.value[1..], value);
      fields := fields[name := child.tree];
      error := child.error;
    }
  }

  // ---- assignments ----

  /** `path:=json` carries JSON, `path=text` carries a string, anything else is skipped. */
  function Assignment(codec: Codec, raw: string): Result<Option<(string, Value)>, Error>
  {
    var typed := Text.Find(raw, ":=");
    var plain := Text.Find(raw, "=");
    if typed.Some? then
      var parsed := codec.parse(raw[typed.value + 2..]);
      if parsed.None? then Err(InvalidJson) else Ok(Some((raw[..typed.value], parsed.value)))
    else if plain.Some? then Ok(Some((raw[..plain.value], Str(raw[plain.value + 1..]))))
    else Ok(None)
  }

  /** All assignments in turn on top of `root`; the first error ends the parse. */
  function Assign(codec: Codec, root: map<string, Value>, args: seq<string>): Result<map<string, Value>, Error>
    decreases |args|
  {
    if args == [] then Ok(root)
    else
      var assignment := Assignment(codec, args[0]);
      if assignment.Err? then Err(assignment.error)
      else if assignment.value.None? then Assign(codec, root, args[1..])
      else
        var placed := PutArgument(root, assignment.value.value.0, assignment.value.value.1);
        if placed.error.Some? then Err(placed.error.value)
        else Assign(codec, placed.tree.fields, args[1..])
  }

  method ParseArguments(codec: Codec, args: seq<string>, payload: Option<string>)
    returns (r: Result<map<string, Value>, Error>)
    ensures payload.None? ==> r == Assign(codec, map[], args)
    ensures payload.Some? ==>
      match codec.parse(payload.value)
      case None => r == Err(InvalidJson)
      case Some(v) => r == if v.Object? then Ok(v.fields) else Err(PayloadNotObject)
  {
    if payload.Some? {
      var value := codec.parse(payload.value);
      if value.None? {
        return Err(InvalidJson);
      }
      return if value.value.Object? then Ok(value.value.fields) else Err(PayloadNotObject);
    }
    var argsMap := new ArgumentMap();
    for i := 0 to |args|
      invariant Assign(codec, map[], args) == Assign(codec, argsMap.fields, args[i..])
      invariant fresh(argsMap)
    {
      assert args[i..][1..] == args[i + 1..];
      var assignment := Assignment(codec, args[i]);
      if assignment.Err? {
        return Err(assignment.error);
      }
      if assignment.value.Some? {
        var error := argsMap.InsertArgumentPath(assignment.value.value.0, assignment.value.value.1);
        if error.Some? {
          return Err(error.value);
        }
      }
    }
    return Ok(argsMap.fields);
  }

  // ---- what an insertion does to the rest of the tree ----

  predicate Comparable(p: Path, q: Path)
  {
    p <= q || q <= p
  }

  lemma {:induction false} ComparableTails(p: Path, q: Path)
    requires p != [] && q != [] && p[0] == q[0]
    ensures Comparable(p, q) <==> Comparable(p[1..], q[1..])
  {
    assert p == [p[0]] + p[1..] && q == [q[0]] + q[1..];
  }

  /** The child of `target` that a path step leads to, null where there is none yet. */
  function Child(target: Value, step: Segment): Value
  {
    match step
    case Key(name) => if target.Object? && name in target.fields then target.fields[name] else Null
    case Index(index) => if target.Array? && index < |target.items| then target.items[index] else Null
  }

  predicate Accepts(target: Value, step: Segment)
  {
    target.Null? || if step.Key? then target.Object? else target.Array?
  }

  /** `target` with the child at `step` replaced, as a container of the kind `step` needs. */
  function WithChild(target: Value, step: Segment, child: Value): Value
    requires Accepts(target, step)
  {
    match step
    case Key(name) => Object((if target.Null? then map[] else target.fields)[name := child])
    case Index(index) => Array(Pad(if target.Null? then [] else target.items, index)[index := child])
  }

  lemma PutStep(target: Value, path: Path, value: Value)
    requires path != []
    ensures var child := Put(Child(target, path[0]), path[1..], value);
            Put(target, path, value) == if Accepts(target, path[0])
                                        then Placed(WithChild(target, path[0], child.tree), child.error)
                                        else Placed(target, Some(Conflict))
  {
  }

  /** A value inserted at a path is what a lookup there finds. */
  lemma {:induction false} PutGet(target: Value, path: Path, value: Value)
    requires Put(target, path, value).error.None?
    ensures Get(Put(target, path, value).tree, path) == Some(value)
    decreases |path|
  {
    if path != [] {
      PutGet(Child(target, path[0]), path[1..], value);
    }
  }

  /** At a path incomparable to the insertion nothing changes, except that array padding
      may put a null where there was nothing. */
  lemma {:induction false} PutFrame(target: Value, path: Path, value: Value, other: Path)
    requires Put(target, path, value).error.None?
    requires !Comparable(path, other)
    ensures var before, after := Get(target, other), Get(Put(target, path, value).tree, other);
            || after == before
            || (before.None? && after == Some(Null) && other[|other| - 1].Index?)
    decreases |path|
  {
    hide Put, Get;
    PutStep(target, path, value);
    var tree := Put(target, path, value).tree;
    var child := Put(Child(target, path[0]), path[1..], value).tree;
    GetStep(target, other);
    GetStep(tree, other);
    if path[0] == other[0] {
      ComparableTails(path, other);
      PutFrame(Child(target, path[0]), path[1..], value, other[1..]);
      assert Child(tree, other[0]) == child && HasChild(tree, other[0]);
      if !HasChild(target, other[0]) {
        GetNull(other[1..]);
      }
    } else {
      OtherChild(target, path[0], child, other[0]);
      GetNull(other[1..]);
    }
  }

  predicate HasChild(target: Value, step: Segment)
  {
    match step
    case Key(name) => target.Object? && name in target.fields
    case Index(index) => target.Array? && index < |target.items|
  }

  lemma GetStep(target: Value, path: Path)
    requires path != []
    ensures Get(target, path) == if HasChild(target, path[0]) then Get(Child(target, path[0]), path[1..]) else None
  {
  }

  /** Replacing one child leaves the others, but may pad an array with nulls. */
  lemma OtherChild(target: Value, step: Segment, child: Value, other: Segment)
    requires Accepts(target, step) && step != other
    ensures HasChild(target, other) ==>
            HasChild(WithChild(target, step, child), other) && Child(WithChild(target, step, child), other) == Child(target, other)
    ensures !HasChild(target, other) && HasChild(WithChild(target, step, child), other) ==>
            other.Index? && Child(WithChild(target, step, child), other) == Null
  {
  }

  /** Below a null there is only the null itself. */
  lemma GetNull(path: Path)
    ensures Get(Null, path) == if path == [] then Some(Null) else None
  {
  }

  predicate BothSucceed(target: Value, p: Path, v: Value, q: Path, w: Value)
  {
    && Put(target, p, v).error.None?
    && Put(Put(target, p, v).tree, q, w).error.None?
  }

  function BothTree(target: Value, p: Path, v: Value, q: Path, w: Value): Value
  {
    Put(Put(target, p, v).tree, q, w).tree
  }

  /** Either order of the two insertions fails, or both build the same tree. */
  predicate Commute(target: Value, p: Path, v: Value, q: Path, w: Value)
  {
    && (BothSucceed(target, p, v, q, w) <==> BothSucceed(target, q, w, p, v))
    && (BothSucceed(target, p, v, q, w) ==> BothTree(target, p, v, q, w) == BothTree(target, q, w, p, v))
  }

  /** Insertions at incomparable paths fail in both orders or build the same tree in both. */
  lemma {:induction false} PutCommutes(target: Value, p: Path, v: Value, q: Path, w: Value)
    requires !Comparable(p, q)
    ensures Commute(target, p, v, q, w)
    decreases |p|
  {
    if p[0] == q[0] {
      ComparableTails(p, q);
      PutCommutes(Child(target, p[0]), p[1..], v, q[1..], w);
      CommuteBelow(target, p, v, q, w);
    } else if p[0].Key? == q[0].Key? {
      CommuteApart(target, p, v, q, w);
    } else {
      ConflictingKinds(target, p, v, q, w);
      ConflictingKinds(target, q, w, p, v);
    }
  }

  lemma WithChildTwice(target: Value, step: Segment, first: Value, second: Value)
    requires Accepts(target, step)
    ensures Child(WithChild(target, step, first), step) == first
    ensures WithChild(WithChild(target, step, first), step, second) == WithChild(target, step, second)
  {
    if step.Index? {
      assert WithChild(WithChild(target, step, first), step, second).items == WithChild(target, step, second).items;
    } else {
      assert WithChild(WithChild(target, step, first), step, second).fields == WithChild(target, step, second).fields;
    }
  }

  lemma WithTwoChildren(target: Value, a: Segment, left: Value, b: Segment, right: Value)
    requires Accepts(target, a) && a != b && (a.Key? <==> b.Key?)
    ensures Child(WithChild(target, a, left), b) == Child(target, b)
    ensures WithChild(WithChild(target, a, left), b, right) == WithChild(WithChild(target, b, right), a, left)
  {
    if a.Index? {
      TwoItems(if target.Null? then [] else target.items, a.index, left, b.index, right);
    } else {
      assert WithChild(WithChild(target, a, left), b, right).fields == WithChild(WithChild(target, b, right), a, left).fields;
    }
  }

  lemma TwoItems(items: seq<Value>, i: nat, left: Value, j: nat, right: Value)
    requires i != j
    ensures Pad(Pad(items, i)[i := left], j)[j := right] == Pad(Pad(items, j)[j := right], i)[i := left]
  {
  }

  /** Both insertions pass through the same child. */
  lemma PutTwiceBelow(target: Value, p: Path, v: Value, q: Path, w: Value)
    requires p != [] && q != [] && p[0] == q[0]
    ensures BothSucceed(target, p, v, q, w) <==>
            Accepts(target, p[0]) && BothSucceed(Child(target, p[0]), p[1..], v, q[1..], w)
    ensures BothSucceed(target, p, v, q, w) ==>
            BothTree(target, p, v, q, w) ==
            WithChild(target, p[0], BothTree(Child(target, p[0]), p[1..], v, q[1..], w))
  {
    hide Put;
    PutStep(target, p, v);
    PutStep(Put(target, p, v).tree, q, w);
    if Accepts(target, p[0]) {
      var child := Put(Child(target, p[0]), p[1..], v);
      WithChildTwice(target, p[0], child.tree, Put(child.tree, q[1..], w).tree);
    }
  }

  lemma CommuteBelow(target: Value, p: Path, v: Value, q: Path, w: Value)
    requires p != [] && q != [] && p[0] == q[0]
    requires Commute(Child(target, p[0]), p[1..], v, q[1..], w)
    ensures Commute(target, p, v, q, w)
  {
    PutTwiceBelow(target, p, v, q, w);
    PutTwiceBelow(target, q, w, p, v);
  }

  /** The insertions pass through two different children of the same container. */
  lemma PutTwiceApart(target: Value, p: Path, v: Value, q: Path, w: Value)
    requires p != [] && q != [] && p[0] != q[0] && (p[0].Key? <==> q[0].Key?)
    ensures var left, right := Put(Child(target, p[0]), p[1..], v), Put(Child(target, q[0]), q[1..], w);
            && (BothSucceed(target, p, v, q, w) <==>
                Accepts(target, p[0]) && left.error.None? && right.error.None?)
            && (BothSucceed(target, p, v, q, w) ==>
                BothTree(target, p, v, q, w) ==
                WithChild(WithChild(target, p[0], left.tree), q[0], right.tree))
  {
    hide Put;
    PutStep(target, p, v);
    PutStep(Put(target, p, v).tree, q, w);
    if Accepts(target, p[0]) {
      WithTwoChildren(target, p[0], Put(Child(target, p[0]), p[1..], v).tree, q[0], Null);
    }
  }

  lemma CommuteApart(target: Value, p: Path, v: Value, q: Path, w: Value)
    requires p != [] && q != [] && p[0] != q[0] && (p[0].Key? <==> q[0].Key?)
    ensures Commute(target, p, v, q, w)
  {
    hide Put, WithChild;
    PutTwiceApart(target, p, v, q, w);
    PutTwiceApart(target, q, w, p, v);
    if Accepts(target, p[0]) {
      WithTwoChildren(target, p[0], Put(Child(target, p[0]), p[1..], v).tree,
                      q[0], Put(Child(target, q[0]), q[1..], w).tree);
    }
  }

  /** A container cannot be both an object and an array. */
  lemma ConflictingKinds(target: Value, p: Path, v: Value, q: Path, w: Value)
    requires p != [] && q != [] && (p[0].Key? <==> q[0].Index?)
    ensures !BothSucceed(target, p, v, q, w)
  {
    hide Put;
    PutStep(target, p, v);
    PutStep(Put(target, p, v).tree, q, w);
  }
}
