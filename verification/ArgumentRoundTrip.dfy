/** A JSON object written as one assignment per leaf, in any order, is rebuilt exactly
    (src/cli.rs). */
module ArgumentRoundTrip {
  import opened Wrappers
  import opened Json
  import opened Arguments
  import Text

  // ---- which objects can be written as assignments ----

  predicate PlainKey(name: string)
  {
    name != "" && '.' !in name && '[' !in name && '=' !in name
  }

  predicate Expressible(v: Value)
  {
    match v
    case Object(fields) => forall k :: k in fields ==> PlainKey(k) && Expressible(fields[k])
    case Array(items) =>
      |items| <= MAX_ARRAY_INDEX + 1 && forall i :: 0 <= i < |items| ==> Expressible(items[i])
    case _ => true
  }

  predicate PlainPath(p: Path)
  {
    forall i :: 0 <= i < |p| ==>
      match p[i]
      case Key(name) => PlainKey(name)
      case Index(index) => index <= MAX_ARRAY_INDEX
  }

  function RenderStep(step: Segment): string
  {
    match step
    case Key(name) => "." + name
    case Index(index) => "[" + Text.ShowNat(index) + "]"
  }

  function RenderTail(p: Path): string
  {
    if p == [] then "" else RenderStep(p[0]) + RenderTail(p[1..])
  }

  function Render(p: Path): string
    requires p != [] && p[0].Key?
  {
    p[0].name + RenderTail(p[1..])
  }

  function AssignmentText(codec: Codec, p: Path, v: Value): string
    requires p != [] && p[0].Key?
  {
    Render(p) + ":=" + codec.show(v)
  }

  // ---- reading a rendered path back ----

  lemma {:induction false} ScanName(name: string, rest: string, current: string, closed: bool)
    requires name != "" && '.' !in name && '[' !in name
    ensures Scan(name + rest, current, closed) == Scan(rest, current + name, false)
  {
    assert (name + rest)[1..] == name[1..] + rest;
    assert current + [name[0]] + name[1..] == current + name;
    if |name| > 1 {
      ScanName(name[1..], rest, current + [name[0]], false);
    } else {
      assert name == [name[0]] && name[1..] + rest == rest;
    }
  }

  lemma ScanKey(name: string, rest: string, current: string)
    requires PlainKey(name)
    ensures Scan("." + name + rest, current, current == "") == Prepend(Pending(current), Scan(rest, name, false))
  {
    assert ("." + name + rest)[1..] == name + rest;
    ScanName(name, rest, "", false);
    assert "" + name == name;
  }

  lemma ScanIndex(index: nat, rest: string, current: string, closed: bool)
    requires index <= MAX_ARRAY_INDEX
    ensures Scan("[" + Text.ShowNat(index) + "]" + rest, current, closed)
            == Prepend(Pending(current) + [Index(index)], Scan(rest, "", true))
  {
    var shown := Text.ShowNat(index);
    var text := "[" + shown + "]" + rest;
    assert text[1..] == shown + "]" + rest;
    Text.FindAfter(shown, ']', rest);
    assert text[1..][..|shown|] == shown;
    assert text[1..][|shown| + 1..] == rest;
    Text.ParseShown(index);
  }

  /** One segment read; `next` is the key then unfinished, if the segment was a key. */
  lemma ScanStep(step: Segment, rest: string, current: string)
    requires PlainPath([step])
    ensures var next := if step.Key? then step.name else "";
            Scan(RenderStep(step) + rest, current, current == "")
            == Prepend(Pending(current) + (if step.Key? then [] else [step]), Scan(rest, next, next == ""))
  {
    assert [step][0] == step;
    if step.Key? {
      assert RenderStep(step) + rest == "." + step.name + rest;
      assert Pending(current) + [] == Pending(current);
      ScanKey(step.name, rest, current);
    } else {
      assert RenderStep(step) + rest == "[" + Text.ShowNat(step.index) + "]" + rest;
      ScanIndex(step.index, rest, current, current == "");
    }
  }

  /** What has been seen of a path and what is pending make up the path. */
  lemma SeenAndNext(seen: Path, p: Path)
    requires p != [] && PlainPath(p)
    ensures PlainPath([p[0]])
    ensures seen + (if p[0].Key? then [] else [p[0]]) + (Pending(if p[0].Key? then p[0].name else "") + p[1..]) == seen + p
  {
    assert p == [p[0]] + p[1..];
    assert [p[0]][0] == p[0];
  }

  lemma {:induction false} ScanTail(p: Path, current: string)
    requires PlainPath(p)
    ensures Scan(RenderTail(p), current, current == "") == Ok(Pending(current) + p)
    decreases |p|
  {
    if p == [] {
      assert Pending(current) + p == Pending(current);
    } else {
      hide RenderStep, PlainPath, Pending;
      SeenAndNext(Pending(current), p);
      PlainTail(p);
      ScanStep(p[0], RenderTail(p[1..]), current);
      ScanTail(p[1..], if p[0].Key? then p[0].name else "");
    }
  }

  lemma PlainTail(p: Path)
    requires p != [] && PlainPath(p)
    ensures PlainPath(p[1..])
  {
  }

  /** The scanner reads a rendered path back. */
  lemma SegmentsOfRendered(p: Path)
    requires p != [] && p[0].Key? && PlainPath(p)
    ensures Segments(Render(p)) == Ok(p)
  {
    hide Scan, RenderTail;
    ScanName(p[0].name, RenderTail(p[1..]), "", false);
    assert "" + p[0].name == p[0].name;
    ScanTail(p[1..], p[0].name);
    assert [p[0]] + p[1..] == p;
  }

  lemma {:induction false} NoEqualsSign(p: Path)
    requires PlainPath(p)
    ensures '=' !in RenderTail(p)
    decreases |p|
  {
    if p != [] {
      NoEqualsSign(p[1..]);
    }
  }

  /** An assignment text is split where the path ends, whatever the JSON text holds. */
  lemma AssignmentOfText(codec: Codec, p: Path, v: Value)
    requires ReadsBack(codec, v) && p != [] && p[0].Key? && PlainPath(p)
    ensures Assignment(codec, AssignmentText(codec, p, v)) == Ok(Some((Render(p), v)))
  {
    hide Text.FindFrom;
    var path, text := Render(p), AssignmentText(codec, p, v);
    NoEqualsSign(p[1..]);
    assert forall i :: 0 <= i < |path| ==> text[i] == path[i];
    forall i | 0 <= i < |path| ensures !Text.OccursAt(text, ":=", i) {
      assert text[i..i + 2][1] == text[i + 1];
      assert text[i + 1] == if i + 1 < |path| then path[i + 1] else ':';
    }
    assert text[|path|..|path| + 2] == ":=";
    Text.FindIs(text, ":=", |path|);
    assert text[..|path|] == path && text[|path| + 2..] == codec.show(v);
  }

  /** `path=text` carries the text exactly when no `:=` stands in it and the path does not end in a
      colon: `:=` is searched for first, wherever it is. */
  lemma PlainAssignmentIff(codec: Codec, p: Path, text: string)
    requires p != [] && p[0].Key? && PlainPath(p)
    ensures Assignment(codec, Render(p) + "=" + text) == Ok(Some((Render(p), Str(text))))
            <==> Render(p)[|Render(p)| - 1] != ':' && Text.Find(text, ":=").None?
  {
    hide Text.FindFrom;
    var path := Render(p);
    var raw := path + "=" + text;
    NoEqualsSign(p[1..]);
    assert '=' !in path;
    assert "=" == ['='];
    Text.FindAfter(path, '=', text);
    assert raw[..|path|] == path && raw[|path| + 1..] == text;
    TypedMarks(path, text);
  }

  /** `a=x:=1` is not read as the text "x:=1" for `a`, but as JSON for the key `a=x`. */
  lemma TextMisread(codec: Codec)
    ensures var parsed := codec.parse("1");
            Assignment(codec, "a=x:=1") == if parsed.Some? then Ok(Some(("a=x", parsed.value))) else Err(InvalidJson)
    ensures Assignment(codec, "a=x:=1") != Ok(Some(("a", Str("x:=1"))))
  {
    hide Text.FindFrom;
    var raw := "a=x:=1";
    assert raw[3..5] == ":=";
    forall i | 0 <= i < 3 ensures !Text.OccursAt(raw, ":=", i) {
      assert raw[i..i + 2][0] == raw[i];
    }
    Text.FindIs(raw, ":=", 3);
    assert raw[..3] == "a=x" && raw[5..] == "1";
    assert |"a=x"| != |"a"|;
  }

  /** Where `:=` stands in a plain assignment: before the text only if the path ends in a colon. */
  lemma TypedMarks(path: string, text: string)
    requires path != "" && '=' !in path
    ensures var at := Text.Find(path + "=" + text, ":=");
            && (at.None? <==> path[|path| - 1] != ':' && Text.Find(text, ":=").None?)
            && (at.Some? ==> at.value != |path| && (path + "=" + text)[..at.value] != path)
  {
    hide Text.FindFrom;
    var raw, n := path + "=" + text, |path| + 1;
    forall i | 0 <= i < |path| - 1 ensures !Text.OccursAt(raw, ":=", i) {
      assert raw[i..i + 2][1] == path[i + 1];
    }
    assert Text.OccursAt(raw, ":=", |path| - 1) <==> path[|path| - 1] == ':' by {
      assert raw[|path| - 1..|path| + 1] == [path[|path| - 1], '='];
    }
    assert !Text.OccursAt(raw, ":=", |path|) by {
      assert |path| + 2 <= |raw| ==> raw[|path|..|path| + 2][0] == '=';
    }
    forall i | 0 <= i <= |text| ensures Text.OccursAt(raw, ":=", n + i) <==> Text.OccursAt(text, ":=", i) {
      assert i + 2 <= |text| ==> raw[n + i..n + i + 2] == text[i..i + 2];
    }
    var at, inside := Text.Find(raw, ":="), Text.Find(text, ":=");
    if inside.Some? {
      assert Text.OccursAt(raw, ":=", n + inside.value);
    }
    if at.Some? && at.value >= n {
      assert Text.OccursAt(text, ":=", at.value - n);
    }
  }

  // ---- leaves ----

  /** A scalar or an empty container. */
  predicate Bare(v: Value)
  {
    (v.Object? ==> v.fields == map[]) && (v.Array? ==> v.items == [])
  }

  predicate LeafAt(o: Value, p: Path, v: Value)
  {
    Get(o, p) == Some(v) && Bare(v)
  }

  lemma {:induction false} LeafPathIsPlain(o: Value, p: Path, v: Value)
    requires Expressible(o) && Get(o, p) == Some(v)
    ensures PlainPath(p)
    decreases |p|
  {
    if p != [] {
      LeafPathIsPlain(Child(o, p[0]), p[1..], v);
      assert p == [p[0]] + p[1..];
    }
  }

  lemma {:induction false} LeavesApart(o: Value, p: Path, v: Value, q: Path, w: Value)
    requires LeafAt(o, p, v) && LeafAt(o, q, w) && p != q
    ensures !Comparable(p, q)
    decreases |p|
  {
    if p != [] && q != [] && p[0] == q[0] {
      assert p == [p[0]] + p[1..] && q == [q[0]] + q[1..];
      LeavesApart(Child(o, p[0]), p[1..], v, q[1..], w);
      ComparableTails(p, q);
    }
  }

  function Under(step: Segment, leaves: seq<(Path, Value)>): (r: seq<(Path, Value)>)
    ensures forall p: Path, v: Value :: (p, v) in r <==> p != [] && p[0] == step && (p[1..], v) in leaves
  {
    var r := seq(|leaves|, i requires 0 <= i < |leaves| => ([step] + leaves[i].0, leaves[i].1));
    assert forall i :: 0 <= i < |leaves| ==> r[i].0[0] == step && r[i].0[1..] == leaves[i].0 && r[i].1 == leaves[i].1;
    assert forall p: Path, v: Value :: p != [] && p[0] == step && (p[1..], v) in leaves ==> (p, v) in r by {
      forall p: Path, v: Value | p != [] && p[0] == step && (p[1..], v) in leaves ensures (p, v) in r {
        var i :| 0 <= i < |leaves| && leaves[i] == (p[1..], v);
        assert r[i] == (p, v) by { assert p == [step] + p[1..]; }
      }
    }
    r
  }

  /** The leaves of a value with their paths. */
  ghost function Leaves(o: Value): (r: seq<(Path, Value)>)
    ensures forall p: Path, v: Value :: (p, v) in r <==> LeafAt(o, p, v)
    decreases o, 1, 0
  {
    if Bare(o) then
      assert forall p: Path, v: Value :: LeafAt(o, p, v) ==> p == [];
      [([], o)]
    else if o.Object? then FieldLeaves(o, o.fields.Keys)
    else ItemLeaves(o, |o.items|)
  }

  ghost function FieldLeaves(o: Value, names: set<string>): (r: seq<(Path, Value)>)
    requires o.Object? && names <= o.fields.Keys
    ensures forall p: Path, v: Value :: (p, v) in r <==> LeafAt(o, p, v) && p != [] && p[0].Key? && p[0].name in names
    decreases o, 0, |names|
  {
    if names == {} then []
    else
      var name :| name in names;
      Under(Key(name), Leaves(o.fields[name])) + FieldLeaves(o, names - {name})
  }

  ghost function ItemLeaves(o: Value, n: nat): (r: seq<(Path, Value)>)
    requires o.Array? && n <= |o.items|
    ensures forall p: Path, v: Value :: (p, v) in r <==> LeafAt(o, p, v) && p != [] && p[0].Index? && p[0].index < n
    decreases o, 0, n
  {
    if n == 0 then []
    else Under(Index(n - 1), Leaves(o.items[n - 1])) + ItemLeaves(o, n - 1)
  }

  // ---- rebuilding ----

  /** `t` is part of `o`: null stands for what has not been inserted yet. */
  predicate Partial(t: Value, o: Value)
    decreases o
  {
    || t.Null?
    || t == o
    || (t.Object? && o.Object? && forall k :: k in t.fields ==> k in o.fields && Partial(t.fields[k], o.fields[k]))
    || (t.Array? && o.Array? && |t.items| <= |o.items|
        && forall i :: 0 <= i < |t.items| ==> Partial(t.items[i], o.items[i]))
  }

  /** Inserting what `o` holds at a path keeps the tree a part of `o`. */
  lemma {:induction false} PutPartial(t: Value, o: Value, p: Path, v: Value)
    requires Partial(t, o) && Get(o, p) == Some(v)
    ensures Put(t, p, v).error.None? && Partial(Put(t, p, v).tree, o)
    decreases |p|
  {
    if p != [] {
      assert Partial(Child(t, p[0]), Child(o, p[0]));
      PutPartial(Child(t, p[0]), Child(o, p[0]), p[1..], v);
      PutStep(t, p, v);
      var tree := Put(t, p, v).tree;
      match p[0] {
        case Key(name) =>
          forall k | k in tree.fields ensures k in o.fields && Partial(tree.fields[k], o.fields[k]) {}
        case Index(index) =>
          forall i | 0 <= i < |tree.items| ensures Partial(tree.items[i], o.items[i]) {}
      }
    }
  }

  /** A part of `o` that holds every leaf of `o` is all of it. */
  lemma {:induction false} PartialWithAllLeaves(t: Value, o: Value)
    requires Partial(t, o)
    requires forall p: Path, v: Value :: LeafAt(o, p, v) ==> Get(t, p) == Some(v)
    ensures t == o
    decreases o
  {
    if Bare(o) {
      assert LeafAt(o, [], o);
    } else if o.Object? {
      forall k | k in o.fields ensures t.Object? && k in t.fields && t.fields[k] == o.fields[k] {
        assert Get(o, [Key(k)]) == Some(o.fields[k]);
        ChildHoldsLeaves(t, o, Key(k));
        assert Child(o, Key(k)) == o.fields[k] && Child(t, Key(k)) == t.fields[k];
        PartialWithAllLeaves(t.fields[k], o.fields[k]);
      }
      assert t.fields == o.fields;
    } else {
      forall i | 0 <= i < |o.items| ensures t.Array? && i < |t.items| && t.items[i] == o.items[i] {
        assert Get(o, [Index(i)]) == Some(o.items[i]);
        ChildHoldsLeaves(t, o, Index(i));
        assert Child(o, Index(i)) == o.items[i] && Child(t, Index(i)) == t.items[i];
        PartialWithAllLeaves(t.items[i], o.items[i]);
      }
      assert forall i :: 0 <= i < |o.items| ==> t.Array? && i < |t.items| && t.items[i] == o.items[i];
      var last := o.items[|o.items| - 1];
      assert t.items == o.items;
    }
  }

  lemma {:induction false} SomeLeaf(o: Value) returns (p: Path, v: Value)
    ensures LeafAt(o, p, v)
    decreases o
  {
    p, v := [], o;
    if !Bare(o) {
      var step: Segment;
      if o.Object? {
        var k :| k in o.fields;
        step := Key(k);
        p, v := SomeLeaf(o.fields[k]);
      } else {
        step := Index(0);
        p, v := SomeLeaf(o.items[0]);
      }
      p := [step] + p;
    }
  }

  lemma ChildHoldsLeaves(t: Value, o: Value, step: Segment)
    requires Get(o, [step]).Some?
    requires forall p: Path, v: Value :: LeafAt(o, p, v) ==> Get(t, p) == Some(v)
    ensures Get(t, [step]).Some?
    ensures forall p: Path, v: Value :: LeafAt(Child(o, step), p, v) ==> Get(Child(t, step), p) == Some(v)
  {
    forall p: Path, v: Value | LeafAt(Child(o, step), p, v) ensures Get(t, [step] + p) == Some(v) {
      assert ([step] + p)[1..] == p;
      assert LeafAt(o, [step] + p, v);
    }
    var p, v := SomeLeaf(Child(o, step));
    assert ([step] + p)[1..] == p;
  }

  /** A list that names every leaf of `o` and nothing else, in any order, repeats allowed. */
  ghost predicate Listing(o: Value, leaves: seq<(Path, Value)>)
  {
    forall p: Path, v: Value :: (p, v) in leaves <==> p != [] && LeafAt(o, p, v)
  }

  ghost predicate Writable(o: Value, leaves: seq<(Path, Value)>)
  {
    forall i :: 0 <= i < |leaves| ==> leaves[i].0 != [] && LeafAt(o, leaves[i].0, leaves[i].1)
  }

  /** The JSON library reads back what it prints for each leaf. */
  predicate LeavesReadBack(codec: Codec, leaves: seq<(Path, Value)>)
  {
    forall i :: 0 <= i < |leaves| ==> ReadsBack(codec, leaves[i].1)
  }

  ghost function Texts(codec: Codec, o: Value, leaves: seq<(Path, Value)>): seq<string>
    requires o.Object? && Writable(o, leaves)
  {
    if leaves == [] then []
    else [AssignmentText(codec, leaves[0].0, leaves[0].1)] + Texts(codec, o, leaves[1..])
  }

  /** `t` already holds every leaf of `o` that is not still to come. */
  ghost predicate Holds(t: Value, o: Value, coming: seq<(Path, Value)>)
  {
    forall p: Path, v: Value :: p != [] && LeafAt(o, p, v) && (p, v) !in coming ==> Get(t, p) == Some(v)
  }

  lemma {:induction false} RebuildRest(codec: Codec, o: Value, t: map<string, Value>, leaves: seq<(Path, Value)>)
    requires LeavesReadBack(codec, leaves) && o.Object? && Expressible(o) && Writable(o, leaves)
    requires Partial(Object(t), o) && Holds(Object(t), o, leaves)
    ensures Assign(codec, t, Texts(codec, o, leaves)) == Ok(o.fields)
    decreases |leaves|
  {
    if leaves == [] {
      if o.fields != map[] {
        PartialWithAllLeaves(Object(t), o);
      }
    } else {
      var (p, v) := leaves[0];
      var tree := Put(Object(t), p, v).tree;
      RebuildStep(codec, o, t, leaves);
      RebuildRest(codec, o, tree.fields, leaves[1..]);
    }
  }

  /** The first assignment is accepted and adds its leaf to what the tree holds. */
  lemma RebuildStep(codec: Codec, o: Value, t: map<string, Value>, leaves: seq<(Path, Value)>)
    requires LeavesReadBack(codec, leaves) && o.Object? && Expressible(o) && Writable(o, leaves) && leaves != []
    requires Partial(Object(t), o) && Holds(Object(t), o, leaves)
    ensures var (p, v) := leaves[0]; var placed := Put(Object(t), p, v);
            && Assignment(codec, AssignmentText(codec, p, v)) == Ok(Some((Render(p), v)))
            && PutArgument(t, Render(p), v) == placed && placed.error.None?
            && placed.tree.Object? && Partial(placed.tree, o) && Holds(placed.tree, o, leaves[1..])
  {
    hide Assignment, Partial, Put, Expressible, Comparable;
    var (p, v) := leaves[0];
    LeafPathIsPlain(o, p, v);
    AssignmentOfText(codec, p, v);
    SegmentsOfRendered(p);
    PutPartial(Object(t), o, p, v);
    var tree := Put(Object(t), p, v).tree;
    assert tree == PutArgument(t, Render(p), v).tree;
    forall q: Path, w: Value | q != [] && LeafAt(o, q, w) && (q, w) !in leaves[1..] ensures Get(tree, q) == Some(w) {
      if q == p {
        PutGet(Object(t), p, v);
      } else {
        LeavesApart(o, p, v, q, w);
        PutFrame(Object(t), p, v, q);
        assert leaves == [leaves[0]] + leaves[1..];
      }
    }
  }

  /** Parsing one `path:=json` assignment per leaf, in any order, rebuilds the object. */
  lemma RebuildFromLeaves(codec: Codec, o: Value, leaves: seq<(Path, Value)>)
    requires LeavesReadBack(codec, leaves) && o.Object? && Expressible(o) && Listing(o, leaves)
    ensures Writable(o, leaves)
    ensures Assign(codec, map[], Texts(codec, o, leaves)) == Ok(o.fields)
  {
    forall i | 0 <= i < |leaves| ensures leaves[i].0 != [] && LeafAt(o, leaves[i].0, leaves[i].1) {
      assert (leaves[i].0, leaves[i].1) in leaves;
    }
    RebuildRest(codec, o, map[], leaves);
  }

  /** Every object has such a listing. */
  lemma ListingExists(o: Value) returns (leaves: seq<(Path, Value)>)
    requires o.Object?
    ensures Listing(o, leaves)
  {
    leaves := if o.fields == map[] then [] else Leaves(o);
  }
}
