/** Which argument paths are accepted, what each refusal is for, and what a list of assignments does (src/cli.rs). */
module ArgumentPaths {
  import opened Wrappers
  import opened Json
  import opened Arguments
  import ArgumentRoundTrip
  import Text

  // ---- the tokens of a path ----

  /** A name, a dot, or what stands between brackets. */
  datatype Token =
    | Name(text: string)
    | Dot
    | Bracket(text: string)

  /** Names are as long as they can be; a bracket ends at the first closing one. */
  predicate Tokens(tokens: seq<Token>)
  {
    && (forall i :: 0 <= i < |tokens| ==> Whole(tokens[i]))
    && (forall i :: 0 < i < |tokens| && tokens[i].Name? ==> !tokens[i - 1].Name?)
  }

  predicate Whole(token: Token)
  {
    && (token.Name? ==> token.text != "" && '.' !in token.text && '[' !in token.text)
    && (token.Bracket? ==> ']' !in token.text)
  }

  function TokenText(token: Token): string
  {
    if token.Name? then token.text else if token.Dot? then "." else "[" + token.text + "]"
  }

  /** The text of the tokens, and a bracket after them that is never closed, if there is one. */
  function PathText(tokens: seq<Token>, open: Option<string>): string
  {
    if tokens == [] then (if open.Some? then "[" + open.value else "")
    else TokenText(tokens[0]) + PathText(tokens[1..], open)
  }

  predicate Parsed(tokens: seq<Token>, open: Option<string>)
  {
    Tokens(tokens) && (open.Some? ==> ']' !in open.value)
  }

  lemma NoBracketFound(text: string)
    requires ']' !in text
    ensures Text.Find(text, "]").None?
  {
    assert "]" == [']'];
    forall i | 0 <= i < |text| ensures !Text.OccursAt(text, "]", i) {
      Text.OccursSingle(text, ']', i);
    }
  }

  /** How far a name reaches. */
  function NameLength(text: string): (n: nat)
    ensures n <= |text|
    ensures forall i :: 0 <= i < n ==> text[i] != '.' && text[i] != '['
    ensures n < |text| ==> text[n] == '.' || text[n] == '['
  {
    if text == "" || text[0] == '.' || text[0] == '[' then 0 else 1 + NameLength(text[1..])
  }

  lemma NextBracket(text: string)
    requires text != "" && text[0] == '['
    ensures var close := Text.Find(text[1..], "]");
            if close.None? then ']' !in text[1..] && text == "[" + text[1..]
            else
              && close.value + 2 <= |text|
              && ']' !in text[1..close.value + 1]
              && text == "[" + text[1..close.value + 1] + "]" + text[close.value + 2..]
  {
    hide Text.FindFrom;
    var tail := text[1..];
    forall i | 0 <= i < |tail| ensures Text.OccursAt(tail, "]", i) <==> tail[i] == ']' {
      Text.OccursSingle(tail, ']', i);
    }
    assert text[0..1] == "[";
  }

  lemma NextName(text: string, n: nat)
    requires n <= |text| && (forall i :: 0 <= i < n ==> text[i] != '.' && text[i] != '[')
    ensures '.' !in text[..n] && '[' !in text[..n] && text == text[..n] + text[n..]
  {
  }

  /** Every text is the text of some tokens. */
  lemma {:induction false} TokensExist(text: string) returns (tokens: seq<Token>, open: Option<string>)
    ensures Parsed(tokens, open) && PathText(tokens, open) == text
    ensures text == "" ==> tokens == []
    ensures text != "" && (text[0] == '.' || text[0] == '[') ==> tokens == [] || !tokens[0].Name?
    decreases |text|
  {
    hide Parsed, PathText, Text.Find;
    if text == "" {
      tokens, open := NoTokens(None);
    } else if text[0] == '[' {
      NextBracket(text);
      var close := Text.Find(text[1..], "]");
      if close.None? {
        tokens, open := NoTokens(Some(text[1..]));
      } else {
        var rest;
        rest, open := TokensExist(text[close.value + 2..]);
        tokens := TokenFirst(Bracket(text[1..close.value + 1]), rest, open);
      }
    } else if text[0] == '.' {
      var rest;
      rest, open := TokensExist(text[1..]);
      tokens := TokenFirst(Dot, rest, open);
      assert text == "." + text[1..];
    } else {
      var n := NameLength(text);
      NextName(text, n);
      var rest;
      rest, open := TokensExist(text[n..]);
      tokens := TokenFirst(Name(text[..n]), rest, open);
    }
  }

  lemma NoTokens(open: Option<string>) returns (none: seq<Token>, same: Option<string>)
    requires open.Some? ==> ']' !in open.value
    ensures none == [] && same == open && Parsed(none, same)
    ensures PathText(none, same) == if open.Some? then "[" + open.value else ""
  {
    none, same := [], open;
  }

  lemma TokenFirst(token: Token, rest: seq<Token>, open: Option<string>) returns (tokens: seq<Token>)
    requires Whole(token) && Parsed(rest, open)
    requires token.Name? && rest != [] ==> !rest[0].Name?
    ensures tokens == [token] + rest && Parsed(tokens, open)
    ensures PathText(tokens, open) == TokenText(token) + PathText(rest, open)
  {
    tokens := [token] + rest;
    assert tokens[1..] == rest;
  }

  // ---- what a path means ----

  /** The index between brackets, no more than 10000. */
  function IndexOf(text: string): Result<nat, Error>
  {
    var index := Text.ParseUsize(text);
    if index.None? then Err(IndexNotInteger)
    else if index.value > 10000 then Err(IndexTooLarge)
    else Ok(index.value)
  }

  /** The first thing wrong with the tokens, read from the left: a dot that no name or bracket stands
      before, a bracket without an index, or one that is not closed; a dot at the end. */
  function Wrong(tokens: seq<Token>, open: Option<string>, started: bool): Option<Error>
  {
    if tokens == [] then
      if open.Some? then Some(MissingBracket) else if started then None else Some(EmptySegment)
    else if tokens[0].Dot? && !started then Some(EmptySegment)
    else if tokens[0].Bracket? && IndexOf(tokens[0].text).Err? then Some(IndexOf(tokens[0].text).error)
    else Wrong(tokens[1..], open, !tokens[0].Dot?)
  }

  /** The steps of the path; dots only keep them apart. */
  function Steps(tokens: seq<Token>): Path
    requires forall i :: 0 <= i < |tokens| && tokens[i].Bracket? ==> IndexOf(tokens[i].text).Ok?
  {
    if tokens == [] then []
    else
      (if tokens[0].Name? then [Key(tokens[0].text)]
       else if tokens[0].Bracket? then [Index(IndexOf(tokens[0].text).value)] else []) + Steps(tokens[1..])
  }

  lemma {:induction false} RightHasIndices(tokens: seq<Token>, open: Option<string>, started: bool)
    requires Wrong(tokens, open, started).None?
    ensures forall i :: 0 <= i < |tokens| && tokens[i].Bracket? ==> IndexOf(tokens[i].text).Ok?
    decreases |tokens|
  {
    hide IndexOf;
    if tokens != [] {
      RightHasIndices(tokens[1..], open, !tokens[0].Dot?);
      assert tokens == [tokens[0]] + tokens[1..];
    }
  }

  /** Nothing is wrong exactly when no dot stands first, last or after another, every bracket is closed
      and has an index in it, and there is something at all. */
  lemma {:induction false} RightIff(tokens: seq<Token>, open: Option<string>, started: bool)
    ensures Wrong(tokens, open, started).None? <==>
            && open.None?
            && (tokens == [] ==> started)
            && (tokens != [] ==> (tokens[0].Dot? ==> started) && !tokens[|tokens| - 1].Dot?)
            && (forall i :: 0 < i < |tokens| && tokens[i].Dot? ==> !tokens[i - 1].Dot?)
            && (forall i :: 0 <= i < |tokens| && tokens[i].Bracket? ==> IndexOf(tokens[i].text).Ok?)
    decreases |tokens|
  {
    hide IndexOf;
    if tokens != [] {
      var rest := tokens[1..];
      RightIff(rest, open, !tokens[0].Dot?);
      assert tokens == [tokens[0]] + rest;
      assert forall i :: 0 <= i < |rest| ==> rest[i] == tokens[i + 1];
      assert |tokens| > 1 ==> tokens[|tokens| - 1] == rest[|rest| - 1];
      assert forall i :: 0 < i < |tokens| ==> tokens[i] == rest[i - 1];
    }
  }

  /** What is scanned of the tokens still ahead, a name having been read before them or not. */
  function Meaning(tokens: seq<Token>, open: Option<string>, started: bool): Result<Path, Error>
  {
    var wrong := Wrong(tokens, open, started);
    if wrong.Some? then Err(wrong.value)
    else
      RightHasIndices(tokens, open, started);
      Ok(Steps(tokens))
  }

  lemma MeaningStep(tokens: seq<Token>, open: Option<string>, started: bool)
    requires tokens != []
    ensures Meaning(tokens, open, started) ==
            if tokens[0].Dot? then if started then Meaning(tokens[1..], open, false) else Err(EmptySegment)
            else if tokens[0].Name? then Prepend([Key(tokens[0].text)], Meaning(tokens[1..], open, true))
            else
              var index := IndexOf(tokens[0].text);
              if index.Err? then Err(index.error) else Prepend([Index(index.value)], Meaning(tokens[1..], open, true))
  {
    hide IndexOf;
    if Wrong(tokens[1..], open, !tokens[0].Dot?).None? {
      RightHasIndices(tokens[1..], open, !tokens[0].Dot?);
      assert [] + Steps(tokens[1..]) == Steps(tokens[1..]);
    }
  }

  // ---- the scanner finds it ----

  lemma ScanDotToken(rest: string, current: string, closed: bool)
    ensures Scan("." + rest, current, closed) ==
            if current == "" && !closed then Err(EmptySegment) else Prepend(Pending(current), Scan(rest, "", false))
  {
    assert ("." + rest)[1..] == rest;
  }

  lemma ScanBracketToken(text: string, rest: string, current: string, closed: bool)
    requires ']' !in text
    ensures var index := IndexOf(text);
            Scan("[" + text + "]" + rest, current, closed) ==
            if index.Err? then Err(index.error)
            else Prepend(Pending(current), Prepend([Index(index.value)], Scan(rest, "", true)))
  {
    hide Text.ParseUsize, Text.Find;
    var all := "[" + text + "]" + rest;
    var tail := text + [']'] + rest;
    assert all[1..] == tail && "]" == [']'];
    Text.FindAfter(text, ']', rest);
    assert tail[..|text|] == text && tail[|text| + 1..] == rest;
    var index := IndexOf(text);
    if index.Ok? {
      PrependTwice(Pending(current), [Index(index.value)], Scan(rest, "", true));
    }
  }

  lemma ScanOpen(text: string, current: string, closed: bool)
    requires ']' !in text
    ensures Scan("[" + text, current, closed) == Err(MissingBracket)
  {
    assert ("[" + text)[1..] == text;
    NoBracketFound(text);
  }

  lemma ScanNothing(current: string, closed: bool)
    requires current != "" ==> !closed
    ensures Scan("", current, closed) == Prepend(Pending(current), Meaning([], None, current != "" || closed))
  {
    assert Steps([]) == [];
  }

  lemma {:induction false} ScanTokens(tokens: seq<Token>, open: Option<string>, current: string, closed: bool)
    requires Parsed(tokens, open)
    requires current != "" ==> !closed && (tokens != [] ==> !tokens[0].Name?)
    ensures Scan(PathText(tokens, open), current, closed)
            == Prepend(Pending(current), Meaning(tokens, open, current != "" || closed))
    decreases |tokens|
  {
    hide Scan, Meaning, IndexOf, Pending, Prepend;
    if tokens == [] {
      ScanLast(open, current, closed);
    } else {
      var rest := PathText(tokens[1..], open);
      TokensRest(tokens, open);
      MeaningStep(tokens, open, current != "" || closed);
      if tokens[0].Dot? {
        ScanDotToken(rest, current, closed);
        ScanTokens(tokens[1..], open, "", false);
      } else if tokens[0].Bracket? {
        ScanBracketToken(tokens[0].text, rest, current, closed);
        ScanTokens(tokens[1..], open, "", true);
      } else {
        var name := tokens[0].text;
        ArgumentRoundTrip.ScanName(name, rest, "", closed);
        assert "" + name == name;
        ScanTokens(tokens[1..], open, name, false);
      }
      PendingIs(current, if tokens[0].Name? then tokens[0].text else "");
    }
  }

  lemma PendingIs(current: string, name: string)
    ensures Pending("") == [] && (name != "" ==> Pending(name) == [Key(name)])
    ensures forall r: Result<Path, Error> :: Prepend([], r) == r
    ensures forall r: Result<Path, Error> :: r.Err? ==> Prepend(Pending(current), r) == r
  {
  }

  lemma ScanLast(open: Option<string>, current: string, closed: bool)
    requires open.Some? ==> ']' !in open.value
    requires current != "" ==> !closed
    ensures Scan(PathText([], open), current, closed) == Prepend(Pending(current), Meaning([], open, current != "" || closed))
  {
    hide Scan;
    if open.Some? {
      ScanOpen(open.value, current, closed);
    } else {
      ScanNothing(current, closed);
    }
  }

  lemma TokensRest(tokens: seq<Token>, open: Option<string>)
    requires tokens != [] && Parsed(tokens, open)
    ensures Parsed(tokens[1..], open) && Whole(tokens[0])
    ensures tokens[0].Name? && |tokens| > 1 ==> !tokens[1..][0].Name?
  {
  }

  /** A path is read as the steps of its tokens, or refused for the first thing wrong with them. */
  lemma PathMeans(tokens: seq<Token>, open: Option<string>)
    requires Parsed(tokens, open)
    ensures Segments(PathText(tokens, open)) ==
            if PathText(tokens, open) == "" then Err(EmptyKey) else Meaning(tokens, open, false)
  {
    hide Scan, Meaning;
    ScanTokens(tokens, open, "", false);
  }

  /** A path that begins with a bracket leads nowhere, as arguments are an object. */
  lemma RootIndexRefused(tokens: seq<Token>, open: Option<string>, root: map<string, Value>, value: Value)
    requires Parsed(tokens, open) && tokens != [] && tokens[0].Bracket? && Meaning(tokens, open, false).Ok?
    ensures PutArgument(root, PathText(tokens, open), value) == Placed(Object(root), Some(RootNotKey))
  {
    hide Segments, Put;
    PathMeans(tokens, open);
    assert PathText(tokens, open)[0] == '[';
  }

  // ---- one assignment ----

  /** Whatever follows the first `:=` is JSON. */
  lemma TypedAssignment(codec: Codec, key: string, text: string)
    requires forall i :: 0 <= i < |key| ==> !(key[i] == ':' && i + 1 < |key| && key[i + 1] == '=')
    ensures Assignment(codec, key + ":=" + text) ==
            var parsed := codec.parse(text);
            if parsed.None? then Err(InvalidJson) else Ok(Some((key, parsed.value)))
  {
    hide Text.Find;
    var raw := key + ":=" + text;
    forall i | 0 <= i < |key| ensures !Text.OccursAt(raw, ":=", i) {
      var window := raw[i..i + 2];
      assert window[0] == raw[i] == key[i] && window[1] == raw[i + 1];
    }
    assert raw[|key|..|key| + 2] == ":=";
    Text.FindIs(raw, ":=", |key|);
    assert raw[..|key|] == key && raw[|key| + 2..] == text;
  }

  /** Without a `:=` whatever follows the first `=` is the text of a string. */
  lemma PlainAssignment(codec: Codec, key: string, text: string)
    requires '=' !in key && (key != "" ==> key[|key| - 1] != ':')
    requires forall i :: 0 < i < |text| && text[i] == '=' ==> text[i - 1] != ':'
    ensures Assignment(codec, key + "=" + text) == Ok(Some((key, Str(text))))
  {
    hide Text.Find;
    var raw := key + "=" + text;
    forall i | 0 <= i < |raw| ensures !Text.OccursAt(raw, ":=", i) {
      if i + 2 <= |raw| {
        var window := raw[i..i + 2];
        assert window[0] == raw[i] && window[1] == raw[i + 1];
        assert i + 1 < |key| ==> raw[i + 1] in key;
        assert i > |key| ==> raw[i] == text[i - |key| - 1] && raw[i + 1] == text[i - |key|];
      }
    }
    assert raw == key + ['='] + text && ['='] == "=";
    Text.FindAfter(key, '=', text);
    assert raw[..|key|] == key && raw[|key| + 1..] == text;
  }

  /** Without a `=` an argument says nothing. */
  lemma NoAssignment(codec: Codec, raw: string)
    requires '=' !in raw
    ensures Assignment(codec, raw) == Ok(None)
  {
    forall i | 0 <= i < |raw| ensures !Text.OccursAt(raw, "=", i) && !Text.OccursAt(raw, ":=", i) {
      Text.OccursSingle(raw, '=', i);
      if i + 2 <= |raw| {
        assert raw[i..i + 2][1] == raw[i + 1] && raw[i + 1] in raw;
      }
    }
  }

  // ---- all of them ----

  /** Assignments are made in turn; after an error nothing that follows matters. */
  lemma {:induction false} AssignConcat(codec: Codec, root: map<string, Value>, a: seq<string>, b: seq<string>)
    ensures Assign(codec, root, a + b) ==
            var first := Assign(codec, root, a);
            if first.Err? then first else Assign(codec, first.value, b)
    decreases |a|
  {
    hide Assignment, PutArgument;
    if a == [] {
      assert a + b == b;
    } else {
      assert (a + b)[1..] == a[1..] + b;
      var assignment := Assignment(codec, a[0]);
      if assignment.Ok? {
        if assignment.value.None? {
          AssignConcat(codec, root, a[1..], b);
        } else {
          var placed := PutArgument(root, assignment.value.value.0, assignment.value.value.1);
          AssignConcat(codec, placed.tree.fields, a[1..], b);
        }
      }
    }
  }

  /** What one argument does to what has been read so far. */
  lemma AssignOne(codec: Codec, root: map<string, Value>, raw: string)
    ensures var assignment := Assignment(codec, raw);
            Assign(codec, root, [raw]) ==
            if assignment.Err? then Err(assignment.error)
            else if assignment.value.None? then Ok(root)
            else
              var placed := PutArgument(root, assignment.value.value.0, assignment.value.value.1);
              if placed.error.Some? then Err(placed.error.value) else Ok(placed.tree.fields)
  {
    hide Assignment, PutArgument;
    assert [raw][1..] == [];
  }

  /** An argument without a `=` can be left out anywhere in the list. */
  lemma SilentArgument(codec: Codec, root: map<string, Value>, a: seq<string>, raw: string, b: seq<string>)
    requires '=' !in raw
    ensures Assign(codec, root, a + [raw] + b) == Assign(codec, root, a + b)
  {
    hide Assign;
    AssignConcat(codec, root, a, b);
    AssignConcat(codec, root, a + [raw], b);
    AssignConcat(codec, root, a, [raw]);
    NoAssignment(codec, raw);
    var first := Assign(codec, root, a);
    if first.Ok? {
      AssignOne(codec, first.value, raw);
    }
  }

  /** The first argument that is refused gives the error of the whole list. */
  lemma FirstErrorEnds(codec: Codec, root: map<string, Value>, a: seq<string>, raw: string, b: seq<string>)
    requires Assign(codec, root, a).Ok? && Assign(codec, Assign(codec, root, a).value, [raw]).Err?
    ensures Assign(codec, root, a + [raw] + b) == Assign(codec, Assign(codec, root, a).value, [raw])
  {
    hide Assign;
    AssignConcat(codec, root, a, [raw]);
    AssignConcat(codec, root, a + [raw], b);
  }
}
