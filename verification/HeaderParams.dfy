/** Parameters of a structured header value (src/email_attachment.rs), and what the Content-Type
    header makes of a part. */
module HeaderParams {
  import opened Wrappers
  import Mime
  import Text

  // ---- segments between semicolons ----

  /** The segments of the rest of a value; a semicolon inside quotes does not divide, and a backslash
      inside quotes protects the character after it. */
  function Segments(rest: string, current: string, quoted: bool, escaped: bool): (r: seq<string>)
    ensures r != [] && current <= r[0] && r[0] <= current + rest
    decreases |rest|
  {
    if rest == "" then [current]
    else
      var c := rest[0];
      assert current + rest == current + [c] + rest[1..];
      if escaped then Segments(rest[1..], current + [c], quoted, false)
      else if c == '\\' && quoted then Segments(rest[1..], current + [c], quoted, true)
      else if c == '"' then Segments(rest[1..], current + [c], !quoted, false)
      else if c == ';' && !quoted then [current] + Segments(rest[1..], "", quoted, false)
      else Segments(rest[1..], current + [c], quoted, false)
  }

  method SplitSegments(value: string) returns (segments: seq<string>)
    ensures segments == Segments(value, "", false, false)
  {
    segments := [];
    var current, inQuotes, escaped := "", false, false;
    for i := 0 to |value|
      invariant Segments(value, "", false, false) == segments + Segments(value[i..], current, inQuotes, escaped)
    {
      assert value[i..][1..] == value[i + 1..];
      var c := value[i];
      ghost var rest := value[i + 1..];
      if escaped {
        current, escaped := current + [c], false;
      } else if c == '\\' && inQuotes {
        current, escaped := current + [c], true;
      } else if c == '"' {
        inQuotes, current := !inQuotes, current + [c];
      } else if c == ';' && !inQuotes {
        assert segments + ([current] + Segments(rest, "", false, false)) == segments + [current] + Segments(rest, "", false, false);
        segments, current := segments + [current], "";
      } else {
        current := current + [c];
      }
    }
    segments := segments + [current];
  }

  // ---- one parameter ----

  datatype Param = Param(name: string, value: string)

  /** A backslash stands for the character after it; at the end it stands for nothing. */
  function Unescaped(value: string): (r: string)
    ensures |r| <= |value| && ('\\' in value ==> |r| < |value|) && ('\\' !in value ==> r == value)
  {
    if value == "" then ""
    else if value[0] == '\\' then if |value| == 1 then "" else [value[1]] + Unescaped(value[2..])
    else [value[0]] + Unescaped(value[1..])
  }

  method UnescapeQuoted(value: string) returns (out: string)
    ensures out == Unescaped(value)
  {
    out := "";
    var i := 0;
    while i < |value|
      invariant i <= |value| && Unescaped(value) == out + Unescaped(value[i..])
    {
      hide Unescaped;
      UnescapedStep(value, i, out);
      if value[i] == '\\' {
        if i + 1 < |value| {
          out := out + [value[i + 1]];
        }
        i := if i + 1 < |value| then i + 2 else i + 1;
      } else {
        out := out + [value[i]];
        i := i + 1;
      }
    }
  }

  lemma UnescapedStep(value: string, i: nat, out: string)
    requires i < |value|
    ensures out + Unescaped(value[i..]) ==
            if value[i] != '\\' then out + [value[i]] + Unescaped(value[i + 1..])
            else if i + 1 < |value| then out + [value[i + 1]] + Unescaped(value[i + 2..])
            else out + Unescaped(value[i + 1..])
  {
    var rest := value[i..];
    assert rest[1..] == value[i + 1..];
    if i + 1 < |value| {
      assert rest[2..] == value[i + 2..];
      assert out + ([rest[1]] + Unescaped(rest[2..])) == out + [rest[1]] + Unescaped(rest[2..]);
    }
    assert out + ([rest[0]] + Unescaped(rest[1..])) == out + [rest[0]] + Unescaped(rest[1..]);
  }

  predicate InQuotes(raw: string)
  {
    |raw| >= 2 && raw[0] == '"' && raw[|raw| - 1] == '"'
  }

  function ParamOf(segment: string): Option<Param>
  {
    var equals := Text.Find(segment, "=");
    if equals.None? then None
    else
      var name := Mime.AsciiLowerAll(Text.Trim(segment[..equals.value]));
      var raw := Text.Trim(segment[equals.value + 1..]);
      Some(Param(name, if InQuotes(raw) then Unescaped(raw[1..|raw| - 1]) else raw))
  }

  function Params(segments: seq<string>): seq<Param>
  {
    if segments == [] then []
    else
      var param := ParamOf(segments[0]);
      (if param.Some? then [param.value] else []) + Params(segments[1..])
  }

  lemma ParamsStep(segments: seq<string>, i: nat, params: seq<Param>)
    requires i < |segments|
    ensures params + Params(segments[i..]) ==
            var param := ParamOf(segments[i]);
            (if param.Some? then params + [param.value] else params) + Params(segments[i + 1..])
  {
    hide ParamOf;
    assert segments[i..][1..] == segments[i + 1..];
  }

  datatype Structured = Structured(main: string, params: seq<Param>)

  function StructuredOf(value: string): Structured
  {
    var segments := Segments(value, "", false, false);
    Structured(Mime.AsciiLowerAll(Text.Trim(segments[0])), Params(segments[1..]))
  }

  method SplitHeaderParams(value: string) returns (r: Structured)
    ensures r == StructuredOf(value)
  {
    hide Segments, Text.Trim, Text.Find, Mime.AsciiLowerAll, Unescaped;
    var segments := SplitSegments(value);
    var main := Mime.AsciiLowerAll(Text.Trim(segments[0]));
    var params: seq<Param> := [];
    for i := 1 to |segments|
      invariant Params(segments[1..]) == params + Params(segments[i..])
    {
      hide Params;
      ParamsStep(segments, i, params);
      var equals := Text.Find(segments[i], "=");
      if equals.None? {
        continue;
      }
      var name := Mime.AsciiLowerAll(Text.Trim(segments[i][..equals.value]));
      var raw := Text.Trim(segments[i][equals.value + 1..]);
      if InQuotes(raw) {
        var value := UnescapeQuoted(raw[1..|raw| - 1]);
        params := params + [Param(name, value)];
      } else {
        params := params + [Param(name, raw)];
      }
    }
    r := Structured(main, params);
  }

  // ---- what a part is ----

  /** The value of the first header of a name. */
  function HeaderValueOf(headers: seq<Mime.Header>, name: string): Option<string>
  {
    if headers == [] then None
    else if headers[0].name == name then Some(headers[0].value)
    else HeaderValueOf(headers[1..], name)
  }

  function ParamValueOf(params: seq<Param>, name: string): Option<string>
  {
    if params == [] then None
    else if params[0].name == name then Some(params[0].value)
    else ParamValueOf(params[1..], name)
  }

  /** A multipart without a subtype or without a boundary has neither children nor metadata. */
  datatype Kind = Multipart(subtype: string, boundary: string) | Unusable | Leaf

  const MULTIPART := "multipart/"

  function KindOf(headers: seq<Mime.Header>): Kind
  {
    var value := HeaderValueOf(headers, "content-type");
    var content := if value.Some? then StructuredOf(value.value) else Structured("text/plain", []);
    if !Text.StartsWith(content.main, MULTIPART) then Leaf
    else
      var subtype, boundary := content.main[|MULTIPART|..], ParamValueOf(content.params, "boundary");
      if subtype == "" || boundary.None? || boundary.value == "" then Unusable
      else Multipart(subtype, boundary.value)
  }

  // ---- when a quoted parameter is read back ----

  /** Every semicolon stands inside quotes, when reading begins inside quotes or not. */
  predicate SemicolonsQuoted(text: string, quoted: bool)
  {
    text != "" ==>
      && (text[0] == ';' ==> quoted)
      && SemicolonsQuoted(text[1..], if text[0] == '"' then !quoted else quoted)
  }

  /** Text without special characters goes to the current segment. */
  lemma {:induction false} PlainScan(text: string, rest: string, current: string, quoted: bool)
    requires '\\' !in text && '"' !in text && ';' !in text
    ensures Segments(text + rest, current, quoted, false) == Segments(rest, current + text, quoted, false)
    decreases |text|
  {
    if text == "" {
      assert text + rest == rest && current + text == current;
    } else {
      assert (text + rest)[1..] == text[1..] + rest;
      PlainScan(text[1..], rest, current + [text[0]], quoted);
      assert current + [text[0]] + text[1..] == current + text;
    }
  }

  /** A text that ends in a quote is one segment exactly when its semicolons are quoted. */
  lemma {:induction false} OneSegmentIff(text: string, current: string, quoted: bool)
    requires '\\' !in text
    ensures Segments(text + "\"", current, quoted, false)[0] == current + text + "\"" <==> SemicolonsQuoted(text, quoted)
    decreases |text|
  {
    var all := text + "\"";
    if text == "" {
      assert all[1..] == "" && current + [all[0]] == current + text + "\"";
    } else {
      assert all[1..] == text[1..] + "\"" && all[0] == text[0];
      assert current + [text[0]] + text[1..] + "\"" == current + text + "\"";
      OneSegmentIff(text[1..], current + [text[0]], if text[0] == '"' then !quoted else quoted);
      assert |current| < |current + text + "\""|;
    }
  }

  /** The Content-Type value of a multipart whose boundary is put between quotes as it is. */
  function QuotedBoundary(subtype: string, boundary: string): string
  {
    MULTIPART + subtype + ";" + NAMED + "\"" + boundary + "\""
  }

  /** The text of a boundary that its reader takes for itself. */
  predicate PlainBoundary(boundary: string)
  {
    '\\' !in boundary && SemicolonsQuoted(boundary, true)
  }

  /** Without backslashes and semicolons every boundary is plain. */
  lemma {:induction false} SimpleIsPlain(boundary: string, quoted: bool)
    requires ';' !in boundary
    ensures SemicolonsQuoted(boundary, quoted)
    ensures '\\' !in boundary ==> PlainBoundary(boundary)
    decreases |boundary|, if quoted then 0 else 1
  {
    if boundary != "" {
      SimpleIsPlain(boundary[1..], if boundary[0] == '"' then !quoted else quoted);
      SimpleIsPlain(boundary[1..], if boundary[0] == '"' then false else true);
    }
  }

  const NAMED := " boundary="

  lemma {:induction false} TrimEndPrefix(text: string)
    ensures Text.TrimEnd(text) <= text
  {
    if text != "" {
      TrimEndPrefix(text[..|text| - 1]);
    }
  }

  /** What the reader makes of a quoted text, or of the start of one. */
  lemma ParamOfQuoted(inside: string)
    ensures var raw := Text.TrimEnd("\"" + inside);
            ParamOf(NAMED + "\"" + inside)
            == Some(Param("boundary", if InQuotes(raw) then Unescaped(raw[1..|raw| - 1]) else raw))
  {
    hide Unescaped, Text.TrimEnd;
    var segment := NAMED + "\"" + inside;
    var name := " boundary";
    assert '=' !in name;
    assert segment == name + ['='] + ("\"" + inside);
    Text.FindAfter(name, '=', "\"" + inside);
    assert ['='] == "=";
    assert segment[..|name|] == name && segment[|name| + 1..] == "\"" + inside;
    NameRead();
    assert Text.TrimStart("\"" + inside) == "\"" + inside;
  }

  lemma NameRead()
    ensures Mime.AsciiLowerAll(Text.Trim(" boundary")) == "boundary"
  {
    assert " boundary"[1..] == "boundary";
    assert Text.Trim(" boundary") == "boundary";
  }

  /** The boundary is read back exactly when it is plain. */
  lemma ReadBackIff(boundary: string)
    requires boundary != "" && boundary[0] != '"' && boundary[0] != '\\'
    ensures var first := Segments(boundary + "\"", NAMED + "\"", true, false)[0];
            var param := ParamOf(first);
            && param.Some? && param.value.name == "boundary" && param.value.value != ""
            && (param.value.value == boundary <==> PlainBoundary(boundary))
  {
    hide Segments, SemicolonsQuoted, Unescaped, ParamOf, Text.TrimEnd;
    var opening := NAMED + "\"";
    var first := Segments(boundary + "\"", opening, true, false)[0];
    var inside := first[|opening|..];
    assert first == opening + inside && inside <= boundary + "\"";
    ParamOfQuoted(inside);
    TrimEndPrefix("\"" + inside);
    QuoteKept(inside);
    var raw := Text.TrimEnd("\"" + inside);
    if '\\' !in boundary {
      OneSegmentIff(boundary, opening, true);
    }
    WholeKept(boundary);
    InsideRead(boundary, inside, raw);
  }

  lemma InsideRead(boundary: string, inside: string, raw: string)
    requires boundary != "" && boundary[0] != '"' && boundary[0] != '\\'
    requires inside <= boundary + "\"" && raw <= "\"" + inside && raw != ""
    requires inside == boundary + "\"" ==> raw == "\"" + inside
    ensures var value := if InQuotes(raw) then Unescaped(raw[1..|raw| - 1]) else raw;
            value != "" && (value == boundary <==> '\\' !in boundary && inside == boundary + "\"")
  {
    assert raw[0] == '"';
    if InQuotes(raw) {
      var inner := raw[1..|raw| - 1];
      assert inner <= inside;
      assert raw[1] == ("\"" + inside)[1] == inside[0] == boundary[0];
      assert inner != "" ==> inner[0] == raw[1];
      if inside == boundary + "\"" {
        assert inner == boundary;
      }
    }
  }

  lemma QuoteKept(inside: string)
    ensures Text.TrimEnd("\"" + inside) != "" && Text.TrimEnd("\"" + inside)[0] == '"'
    decreases |inside|
  {
    var text := "\"" + inside;
    if inside != "" {
      assert text[..|text| - 1] == "\"" + inside[..|inside| - 1];
      QuoteKept(inside[..|inside| - 1]);
    }
  }

  lemma WholeKept(boundary: string)
    ensures Text.TrimEnd("\"" + (boundary + "\"")) == "\"" + (boundary + "\"")
  {
  }

  // ---- the Content-Type of a built message ----

  const ALTERNATIVE := MULTIPART + "alternative"

  lemma QuotedSegments(boundary: string)
    ensures Segments(QuotedBoundary("alternative", boundary), "", false, false)
            == [ALTERNATIVE] + Segments(boundary + "\"", NAMED + "\"", true, false)
  {
    var value := QuotedBoundary("alternative", boundary);
    var quoted := "\"" + (boundary + "\"");
    var second := NAMED + quoted;
    hide Segments;
    Regrouped(ALTERNATIVE, NAMED, boundary);
    NoSpecials();
    PlainScan(ALTERNATIVE, ";" + second, "", false);
    assert "" + ALTERNATIVE == ALTERNATIVE;
    SemicolonStep(ALTERNATIVE, second);
    PlainScan(NAMED, quoted, "", false);
    assert "" + NAMED == NAMED;
    QuoteStep(NAMED, boundary + "\"");
  }

  lemma Regrouped(front: string, name: string, boundary: string)
    ensures front + ";" + name + "\"" + boundary + "\"" == front + (";" + (name + ("\"" + (boundary + "\""))))
  {
  }

  lemma NoSpecials()
    ensures '\\' !in ALTERNATIVE && '"' !in ALTERNATIVE && ';' !in ALTERNATIVE
    ensures '\\' !in NAMED && '"' !in NAMED && ';' !in NAMED
  {
  }

  lemma SemicolonStep(current: string, rest: string)
    ensures Segments(";" + rest, current, false, false) == [current] + Segments(rest, "", false, false)
  {
    assert (";" + rest)[1..] == rest;
  }

  lemma QuoteStep(current: string, rest: string)
    ensures Segments("\"" + rest, current, false, false) == Segments(rest, current + "\"", true, false)
  {
    assert ("\"" + rest)[1..] == rest;
  }

  lemma AlternativeRead()
    ensures Mime.AsciiLowerAll(Text.Trim(ALTERNATIVE)) == ALTERNATIVE
    ensures Text.StartsWith(ALTERNATIVE, MULTIPART) && ALTERNATIVE[|MULTIPART|..] == "alternative"
  {
    assert Text.Trim(ALTERNATIVE) == ALTERNATIVE;
  }

  lemma FirstParam(segment: string, more: seq<string>)
    requires ParamOf(segment).Some?
    ensures Params([segment] + more) == [ParamOf(segment).value] + Params(more)
  {
    hide ParamOf;
    assert ([segment] + more)[1..] == more;
  }

  /** A multipart/alternative whose boundary is put between quotes is read as one, with the same
      boundary exactly when it is plain. */
  lemma AlternativeIff(headers: seq<Mime.Header>, boundary: string)
    requires HeaderValueOf(headers, "content-type") == Some(QuotedBoundary("alternative", boundary))
    requires boundary != "" && boundary[0] != '"' && boundary[0] != '\\'
    ensures var kind := KindOf(headers);
            && kind.Multipart? && kind.subtype == "alternative" && kind.boundary != ""
            && (kind.boundary == boundary <==> PlainBoundary(boundary))
  {
    hide Segments, Params, ParamOf, PlainBoundary, QuotedBoundary, Text.Trim, Mime.AsciiLowerAll;
    var value := QuotedBoundary("alternative", boundary);
    var rest := Segments(boundary + "\"", NAMED + "\"", true, false);
    QuotedSegments(boundary);
    ReadBackIff(boundary);
    AlternativeRead();
    var segments := Segments(value, "", false, false);
    assert segments[0] == ALTERNATIVE && segments[1..] == rest;
    assert rest == [rest[0]] + rest[1..];
    FirstParam(rest[0], rest[1..]);
    var params := Params(rest);
    assert params[0] == ParamOf(rest[0]).value;
  }
}
