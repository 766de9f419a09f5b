/** Headers and multipart bodies of a message (src/email_attachment.rs). */
module Mime {
  import opened Wrappers
  import Text

  // A part's header block and body, and the parts of a multipart body (section 5.1.1 of RFC 2046).

  // ---- headers ----

  /** The header block and the body, divided at the first blank line. */
  function SplitHeaderBlock(text: string): (string, string)
  {
    var crlf := Text.Find(text, "\r\n\r\n");
    var lf := Text.Find(text, "\n\n");
    if crlf.Some? then (text[..crlf.value], text[crlf.value + 4..])
    else if lf.Some? then (text[..lf.value], text[lf.value + 2..])
    else (text, "")
  }

  datatype Header = Header(name: string, value: string)

  function AsciiLowerAll(s: string): (r: string)
    ensures |r| == |s|
  {
    seq(|s|, i requires 0 <= i < |s| => Text.AsciiLower(s[i]))
  }

  predicate Folded(line: string)
  {
    line != "" && (line[0] == ' ' || line[0] == '\t')
  }

  /** The headers after one more line: a folded line continues the last header. */
  function WithLine(headers: seq<Header>, line: string): seq<Header>
  {
    var colon := Text.Find(line, ":");
    if Folded(line) && headers != [] then
      var last := headers[|headers| - 1];
      headers[..|headers| - 1] + [last.(value := last.value + " " + Text.Trim(line))]
    else if colon.None? then headers
    else headers + [Header(AsciiLowerAll(Text.Trim(line[..colon.value])), Text.Trim(line[colon.value + 1..]))]
  }

  function WithLines(headers: seq<Header>, lines: seq<string>): seq<Header>
    decreases |lines|
  {
    if lines == [] then headers else WithLines(WithLine(headers, lines[0]), lines[1..])
  }

  method ParseHeaderBlock(block: string) returns (headers: seq<Header>)
    ensures headers == WithLines([], Text.Lines(block))
  {
    headers := [];
    var lines := Text.Lines(block);
    for i := 0 to |lines|
      invariant WithLines([], lines) == WithLines(headers, lines[i..])
    {
      assert lines[i..][1..] == lines[i + 1..];
      var line := lines[i];
      if Folded(line) && headers != [] {
        var last := headers[|headers| - 1];
        headers := headers[..|headers| - 1] + [last.(value := last.value + " " + Text.Trim(line))];
        continue;
      }
      var colon := Text.Find(line, ":");
      if colon.Some? {
        var name, value := line[..colon.value], line[colon.value + 1..];
        headers := headers + [Header(AsciiLowerAll(Text.Trim(name)), Text.Trim(value))];
      }
    }
  }

  // ---- multipart bodies ----

  /** What follows the boundary on a line that begins with it. */
  function AfterBoundary(line: string, boundary: string): Option<string>
  {
    if boundary != "" && Text.StartsWith(line, "--" + boundary) then Some(line[2 + |boundary|..]) else None
  }

  predicate Closes(line: string, boundary: string)
  {
    var after := AfterBoundary(line, boundary);
    after.Some? && Text.StartsWith(after.value, "--")
  }

  predicate Delimits(line: string, boundary: string)
  {
    var after := AfterBoundary(line, boundary);
    after.Some? && (Text.StartsWith(after.value, "--") || after.value == ""
                    || after.value[0] == ' ' || after.value[0] == '\t')
  }

  /** A part without the line break that belongs to the delimiter after it. */
  function Finished(part: string): string
  {
    if part != "" && part[|part| - 1] == '\n' then part[..|part| - 1] else part
  }

  function Collected(current: Option<string>): seq<string>
  {
    if current.Some? then [Finished(current.value)] else []
  }

  /** The parts in the remaining lines, when `current` is the part being read, if there is one. */
  function PartsFrom(lines: seq<string>, boundary: string, current: Option<string>): seq<string>
    decreases |lines|
  {
    if lines == [] then Collected(current)
    else if Delimits(lines[0], boundary) then
      if Closes(lines[0], boundary) then Collected(current)
      else Collected(current) + PartsFrom(lines[1..], boundary, Some(""))
    else PartsFrom(lines[1..], boundary, if current.Some? then Some(current.value + lines[0] + "\n") else None)
  }

  function Parts(body: string, boundary: string): seq<string>
  {
    PartsFrom(Text.Lines(body), boundary, None)
  }

  method SplitMultipartBody(body: string, boundary: string) returns (parts: seq<string>)
    ensures parts == Parts(body, boundary)
  {
    parts := [];
    var current: Option<string> := None;
    var lines := Text.Lines(body);
    for i := 0 to |lines|
      invariant Parts(body, boundary) == parts + PartsFrom(lines[i..], boundary, current)
    {
      var line := lines[i];
      PartsStep(lines[i..], boundary, current, parts);
      assert lines[i..][1..] == lines[i + 1..];
      if Delimits(line, boundary) {
        if current.Some? {
          parts := parts + [Finished(current.value)];
        }
        if Closes(line, boundary) {
          return;
        }
        current := Some("");
        continue;
      }
      if current.Some? {
        current := Some(current.value + line + "\n");
      }
    }
    if current.Some? {
      parts := parts + [Finished(current.value)];
    }
  }

  lemma PartsStep(lines: seq<string>, boundary: string, current: Option<string>, parts: seq<string>)
    requires lines != []
    ensures parts + PartsFrom(lines, boundary, current) ==
            if Delimits(lines[0], boundary) then
              if Closes(lines[0], boundary) then parts + Collected(current)
              else parts + Collected(current) + PartsFrom(lines[1..], boundary, Some(""))
            else parts + PartsFrom(lines[1..], boundary, if current.Some? then Some(current.value + lines[0] + "\n") else None)
  {
    hide Delimits, Closes, Collected;
  }

  // ---- splitting undoes joining ----

  /** A line with its ending, LF or CRLF, is read back from the text it starts. */
  predicate PlainLine(line: string)
  {
    '\n' !in line && (line != "" ==> line[|line| - 1] != '\r')
  }

  predicate Newline(ending: string)
  {
    ending == "\n" || ending == "\r\n"
  }

  lemma LinesCons(line: string, ending: string, rest: string)
    requires PlainLine(line) && Newline(ending)
    ensures Text.Lines(line + ending + rest) == [line] + Text.Lines(rest)
  {
    hide Text.Find;
    var front := if ending == "\n" then line else line + "\r";
    var text := line + ending + rest;
    assert text == front + "\n" + rest;
    assert '\n' !in front;
    Text.FindAfter(front, '\n', rest);
    assert ['\n'] == "\n";
    assert text[..|front|] == front && text[|front| + 1..] == rest;
    assert Text.WithoutCr(front) == line by {
      if ending == "\r\n" {
        assert front[..|front| - 1] == line;
      }
    }
  }

  function Written(lines: seq<string>, ending: string): string
  {
    if lines == [] then "" else lines[0] + ending + Written(lines[1..], ending)
  }

  lemma {:induction false} LinesWritten(lines: seq<string>, ending: string, rest: string)
    requires Newline(ending) && forall i :: 0 <= i < |lines| ==> PlainLine(lines[i])
    ensures Text.Lines(Written(lines, ending) + rest) == lines + Text.Lines(rest)
  {
    hide PlainLine, Newline, Text.Lines;
    if lines == [] {
      assert Written(lines, ending) + rest == rest;
    } else {
      var tail := Written(lines[1..], ending) + rest;
      assert Written(lines, ending) + rest == lines[0] + ending + tail;
      LinesCons(lines[0], ending, tail);
      LinesWritten(lines[1..], ending, rest);
      assert [lines[0]] + (lines[1..] + Text.Lines(rest)) == lines + Text.Lines(rest);
    }
  }

  /** A part as the list of its lines, at least one: the text between its LFs. */
  function PartText(lines: seq<string>): string
    requires lines != []
  {
    if |lines| == 1 then lines[0] else lines[0] + "\n" + PartText(lines[1..])
  }

  /** Each part after a delimiter line. */
  function WrittenParts(parts: seq<seq<string>>, boundary: string): seq<string>
  {
    if parts == [] then [] else ["--" + boundary] + parts[0] + WrittenParts(parts[1..], boundary)
  }

  /** Lines that a part may have: no line break inside, and no delimiter. */
  predicate PartLine(line: string, boundary: string)
  {
    PlainLine(line) && !Delimits(line, boundary)
  }

  predicate PartLines(lines: seq<string>, boundary: string)
  {
    forall i :: 0 <= i < |lines| ==> PartLine(lines[i], boundary)
  }

  predicate NoDelimiter(lines: seq<string>, boundary: string)
  {
    forall i :: 0 <= i < |lines| ==> !Delimits(lines[i], boundary)
  }

  lemma PartLinesNoDelimiter(lines: seq<string>, boundary: string)
    requires PartLines(lines, boundary)
    ensures NoDelimiter(lines, boundary)
  {
  }

  lemma {:induction false} ReadLines(lines: seq<string>, boundary: string, current: string, more: seq<string>)
    requires NoDelimiter(lines, boundary)
    ensures PartsFrom(lines + more, boundary, Some(current)) ==
            PartsFrom(more, boundary, Some(current + Written(lines, "\n")))
    decreases |lines|
  {
    hide Delimits, Closes;
    if lines == [] {
      assert lines + more == more && current + "" == current;
    } else {
      assert (lines + more)[1..] == lines[1..] + more;
      ReadLines(lines[1..], boundary, current + lines[0] + "\n", more);
      assert current + lines[0] + "\n" + Written(lines[1..], "\n") == current + Written(lines, "\n");
    }
  }

  lemma {:induction false} SkipPreamble(lines: seq<string>, boundary: string, more: seq<string>)
    requires NoDelimiter(lines, boundary)
    ensures PartsFrom(lines + more, boundary, None) == PartsFrom(more, boundary, None)
    decreases |lines|
  {
    hide Delimits, Closes;
    if lines == [] {
      assert lines + more == more;
    } else {
      assert (lines + more)[1..] == lines[1..] + more;
      SkipPreamble(lines[1..], boundary, more);
    }
  }

  lemma {:induction false} FinishedWritten(lines: seq<string>)
    requires lines != []
    ensures Written(lines, "\n") == PartText(lines) + "\n"
    ensures Finished(Written(lines, "\n")) == PartText(lines)
    decreases |lines|
  {
    if |lines| == 1 {
      assert lines[1..] == [];
      assert Written(lines, "\n") == lines[0] + "\n" + "";
    } else {
      FinishedWritten(lines[1..]);
      assert Written(lines, "\n") == lines[0] + "\n" + PartText(lines[1..]) + "\n";
    }
    assert (PartText(lines) + "\n")[..|PartText(lines)|] == PartText(lines);
  }

  function PartTexts(parts: seq<seq<string>>): seq<string>
    requires forall i :: 0 <= i < |parts| ==> parts[i] != []
  {
    seq(|parts|, i requires 0 <= i < |parts| => PartText(parts[i]))
  }

  lemma DelimiterLines(boundary: string)
    requires boundary != "" && PlainLine(boundary)
    ensures var open, close := "--" + boundary, "--" + boundary + "--";
            && PlainLine(open) && PlainLine(close)
            && Delimits(open, boundary) && !Closes(open, boundary)
            && Delimits(close, boundary) && Closes(close, boundary)
  {
    var open, close := "--" + boundary, "--" + boundary + "--";
    assert open[2 + |boundary|..] == "";
    assert close[2 + |boundary|..] == "--" && close[..2 + |boundary|] == open;
    assert "--"[..2] == "--";
  }

  /** Reading on after a delimiter line: the parts, then whatever the closing one ends. */
  lemma {:induction false} ReadParts(parts: seq<seq<string>>, boundary: string, current: Option<string>, epilogue: seq<string>)
    requires boundary != "" && PlainLine(boundary)
    requires forall i :: 0 <= i < |parts| ==> parts[i] != [] && NoDelimiter(parts[i], boundary)
    ensures PartsFrom(WrittenParts(parts, boundary) + (["--" + boundary + "--"] + epilogue), boundary, current)
            == Collected(current) + PartTexts(parts)
    decreases |parts|
  {
    hide Delimits, Closes, Finished, NoDelimiter, Collected;
    DelimiterLines(boundary);
    var end := ["--" + boundary + "--"] + epilogue;
    if parts == [] {
      assert WrittenParts(parts, boundary) + end == end;
      assert Collected(current) + PartTexts(parts) == Collected(current);
    } else {
      var more := WrittenParts(parts[1..], boundary) + end;
      var lines := WrittenParts(parts, boundary) + end;
      assert lines == ["--" + boundary] + (parts[0] + more);
      assert lines[1..] == parts[0] + more;
      ReadLines(parts[0], boundary, "", more);
      FinishedWritten(parts[0]);
      assert "" + Written(parts[0], "\n") == Written(parts[0], "\n");
      ReadParts(parts[1..], boundary, Some(Written(parts[0], "\n")), epilogue);
      CollectedOne(parts[0]);
      assert PartTexts(parts) == [PartText(parts[0])] + PartTexts(parts[1..]);
    }
  }

  lemma CollectedOne(part: seq<string>)
    requires part != []
    ensures Collected(Some(Written(part, "\n"))) == [PartText(part)]
  {
    FinishedWritten(part);
  }

  /** Writing parts between delimiter lines, with LF or CRLF line endings, any preamble without
      a delimiter line and any epilogue, and splitting gives the parts back. */
  lemma SplitUndoesJoin(parts: seq<seq<string>>, boundary: string, preamble: seq<string>, epilogue: string, ending: string)
    requires boundary != "" && PlainLine(boundary) && Newline(ending) && PartLines(preamble, boundary)
    requires forall i :: 0 <= i < |parts| ==> parts[i] != [] && PartLines(parts[i], boundary)
    ensures var body := Written(preamble + WrittenParts(parts, boundary) + ["--" + boundary + "--"], ending) + epilogue;
            Parts(body, boundary) == PartTexts(parts)
  {
    hide PartLines, NoDelimiter, PlainLine, Newline, Text.Lines, Written, WrittenParts, PartsFrom;
    var rest := WrittenParts(parts, boundary) + (["--" + boundary + "--"] + Text.Lines(epilogue));
    JoinedLines(parts, boundary, preamble, epilogue, ending);
    PartLinesNoDelimiter(preamble, boundary);
    SkipPreamble(preamble, boundary, rest);
    forall i | 0 <= i < |parts| ensures NoDelimiter(parts[i], boundary) {
      PartLinesNoDelimiter(parts[i], boundary);
    }
    ReadParts(parts, boundary, None, Text.Lines(epilogue));
    assert [] + PartTexts(parts) == PartTexts(parts);
  }

  lemma JoinedLines(parts: seq<seq<string>>, boundary: string, preamble: seq<string>, epilogue: string, ending: string)
    requires boundary != "" && PlainLine(boundary) && Newline(ending) && PartLines(preamble, boundary)
    requires forall i :: 0 <= i < |parts| ==> PartLines(parts[i], boundary)
    ensures Text.Lines(Written(preamble + WrittenParts(parts, boundary) + ["--" + boundary + "--"], ending) + epilogue)
            == preamble + (WrittenParts(parts, boundary) + (["--" + boundary + "--"] + Text.Lines(epilogue)))
  {
    hide Delimits, Closes, PlainLine, Newline, Text.Lines, Written, WrittenParts;
    var middle, end := WrittenParts(parts, boundary), ["--" + boundary + "--"];
    var lines := preamble + middle + end;
    DelimiterLines(boundary);
    PlainWrittenParts(parts, boundary);
    forall i | 0 <= i < |lines| ensures PlainLine(lines[i]) {
      if i < |preamble| {
        assert PartLine(preamble[i], boundary);
      } else if i < |preamble| + |middle| {
        assert lines[i] == middle[i - |preamble|];
      }
    }
    LinesWritten(lines, ending, epilogue);
    assert lines + Text.Lines(epilogue) == preamble + (middle + (end + Text.Lines(epilogue)));
  }

  // ---- no part holds a delimiter line ----

  predicate NoNewline(lines: seq<string>)
  {
    forall i :: 0 <= i < |lines| ==> '\n' !in lines[i]
  }

  predicate Clean(part: string, boundary: string)
  {
    NoDelimiter(Text.SplitOn(part, "\n"), boundary)
  }

  predicate AllClean(parts: seq<string>, boundary: string)
  {
    forall i :: 0 <= i < |parts| ==> Clean(parts[i], boundary)
  }

  lemma AllCleanConcat(a: seq<string>, b: seq<string>, boundary: string)
    requires AllClean(a, boundary) && AllClean(b, boundary)
    ensures AllClean(a + b, boundary)
  {
  }

  lemma {:induction false} SplitPartText(lines: seq<string>)
    requires lines != [] && NoNewline(lines)
    ensures Text.SplitOn(PartText(lines), "\n") == lines
    decreases |lines|
  {
    hide Text.Find;
    if |lines| == 1 {
      Text.NotFound(lines[0]);
    } else {
      var rest := PartText(lines[1..]);
      SplitPartText(lines[1..]);
      assert "\n" == ['\n'];
      Text.FindAfter(lines[0], '\n', rest);
      assert PartText(lines)[..|lines[0]|] == lines[0] && PartText(lines)[|lines[0]| + 1..] == rest;
    }
  }

  lemma {:induction false} LinesNoNewline(text: string)
    ensures NoNewline(Text.Lines(text))
    decreases |text|
  {
    if text != "" {
      var end := Text.Find(text, "\n");
      if end.None? {
        forall i | 0 <= i < |text| ensures text[i] != '\n' {
          Text.OccursSingle(text, '\n', i);
        }
      } else {
        forall i | 0 <= i < end.value ensures text[i] != '\n' {
          Text.OccursSingle(text, '\n', i);
        }
        LinesNoNewline(text[end.value + 1..]);
      }
    }
  }

  lemma CollectedClean(read: seq<string>, boundary: string)
    requires NoNewline(read) && NoDelimiter(read, boundary)
    ensures Clean(Finished(Written(read, "\n")), boundary)
  {
    if read == [] {
      Text.NotFound("");
      assert Text.SplitOn("", "\n") == [""];
    } else {
      FinishedWritten(read);
      SplitPartText(read);
    }
  }

  /** `read` are the lines of the part being read, if there is one. */
  lemma {:induction false} PartsFromClean(lines: seq<string>, boundary: string, read: Option<seq<string>>)
    requires NoNewline(lines)
    requires read.Some? ==> NoNewline(read.value) && NoDelimiter(read.value, boundary)
    ensures var current := if read.Some? then Some(Written(read.value, "\n")) else None;
            AllClean(PartsFrom(lines, boundary, current), boundary)
    decreases |lines|
  {
    hide Delimits, Closes, Clean, Finished;
    var current := if read.Some? then Some(Written(read.value, "\n")) else None;
    if read.Some? {
      CollectedClean(read.value, boundary);
    }
    assert AllClean(Collected(current), boundary);
    if lines != [] {
      if Delimits(lines[0], boundary) {
        PartsFromClean(lines[1..], boundary, Some([]));
        AllCleanConcat(Collected(current), PartsFrom(lines[1..], boundary, Some("")), boundary);
      } else if read.Some? {
        WrittenOneMore(read.value, lines[0]);
        PartsFromClean(lines[1..], boundary, Some(read.value + [lines[0]]));
      } else {
        PartsFromClean(lines[1..], boundary, None);
      }
    }
  }

  lemma {:induction false} WrittenOneMore(lines: seq<string>, line: string)
    ensures Written(lines + [line], "\n") == Written(lines, "\n") + line + "\n"
    decreases |lines|
  {
    if lines == [] {
      assert [line][1..] == [];
    } else {
      assert (lines + [line])[1..] == lines[1..] + [line];
      WrittenOneMore(lines[1..], line);
    }
  }

  /** Whatever the body, no part that is split off has a line that is a delimiter. */
  lemma PartsClean(body: string, boundary: string)
    ensures AllClean(Parts(body, boundary), boundary)
  {
    LinesNoNewline(body);
    PartsFromClean(Text.Lines(body), boundary, None);
  }

  /** Splitting gives the written parts back exactly when none of their lines is a delimiter. */
  lemma SplitUndoesJoinIff(parts: seq<seq<string>>, boundary: string, preamble: seq<string>, epilogue: string, ending: string)
    requires boundary != "" && PlainLine(boundary) && Newline(ending) && PartLines(preamble, boundary)
    requires forall i :: 0 <= i < |parts| ==> parts[i] != [] && forall j :: 0 <= j < |parts[i]| ==> PlainLine(parts[i][j])
    ensures var body := Written(preamble + WrittenParts(parts, boundary) + ["--" + boundary + "--"], ending) + epilogue;
            Parts(body, boundary) == PartTexts(parts) <==>
            forall i :: 0 <= i < |parts| ==> NoDelimiter(parts[i], boundary)
  {
    hide Delimits, PlainLine, Newline, Parts, PartText, NoNewline;
    var body := Written(preamble + WrittenParts(parts, boundary) + ["--" + boundary + "--"], ending) + epilogue;
    if forall i :: 0 <= i < |parts| ==> NoDelimiter(parts[i], boundary) {
      SplitUndoesJoin(parts, boundary, preamble, epilogue, ending);
    } else if Parts(body, boundary) == PartTexts(parts) {
      PartsClean(body, boundary);
      forall i | 0 <= i < |parts| ensures NoDelimiter(parts[i], boundary) {
        PlainNoNewline(parts[i]);
        SplitPartText(parts[i]);
        assert PartTexts(parts)[i] == PartText(parts[i]);
      }
    }
  }

  lemma PlainNoNewline(lines: seq<string>)
    requires forall j :: 0 <= j < |lines| ==> PlainLine(lines[j])
    ensures NoNewline(lines)
  {
  }

  lemma {:induction false} PlainWrittenParts(parts: seq<seq<string>>, boundary: string)
    requires PlainLine("--" + boundary)
    requires forall i :: 0 <= i < |parts| ==> PartLines(parts[i], boundary)
    ensures forall i :: 0 <= i < |WrittenParts(parts, boundary)| ==> PlainLine(WrittenParts(parts, boundary)[i])
    decreases |parts|
  {
    if parts != [] {
      PlainWrittenParts(parts[1..], boundary);
    }
  }

  // ---- a part is shorter than the body it stands in ----

  function LinesLength(lines: seq<string>): nat
  {
    if lines == [] then 0 else |lines[0]| + 1 + LinesLength(lines[1..])
  }

  lemma {:induction false} LinesLengthBound(text: string)
    ensures LinesLength(Text.Lines(text)) <= |text| + 1
    decreases |text|
  {
    if text != "" {
      var end := Text.Find(text, "\n");
      if end.Some? {
        LinesLengthBound(text[end.value + 1..]);
        assert Text.Lines(text)[1..] == Text.Lines(text[end.value + 1..]);
      }
    }
  }

  predicate NoneLonger(parts: seq<string>, bound: int)
  {
    forall i :: 0 <= i < |parts| ==> |parts[i]| <= bound
  }

  lemma {:induction false} PartsBound(lines: seq<string>, boundary: string, current: Option<string>)
    ensures current.None? ==> NoneLonger(PartsFrom(lines, boundary, current), LinesLength(lines) - 3)
    ensures current.Some? ==> NoneLonger(PartsFrom(lines, boundary, current), |current.value| + LinesLength(lines))
    decreases |lines|
  {
    if lines != [] {
      DelimiterLength(lines[0], boundary);
      hide Delimits, Closes;
      if Delimits(lines[0], boundary) {
        PartsBound(lines[1..], boundary, Some(""));
      } else if current.Some? {
        PartsBound(lines[1..], boundary, Some(current.value + lines[0] + "\n"));
      } else {
        PartsBound(lines[1..], boundary, None);
      }
    }
  }

  lemma DelimiterLength(line: string, boundary: string)
    ensures Delimits(line, boundary) ==> |line| >= 2
  {
  }

  /** Nested parts shrink: a delimiter line takes up at least two characters of the body. */
  lemma PartsShorter(body: string, boundary: string)
    ensures forall i :: 0 <= i < |Parts(body, boundary)| ==> |Parts(body, boundary)[i]| < |body|
  {
    LinesLengthBound(body);
    PartsBound(Text.Lines(body), boundary, None);
  }
}
