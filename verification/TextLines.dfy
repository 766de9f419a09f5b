/** Texts put together from lines, with LF or CRLF between them, and how they are taken apart again: where
    the first blank line stands when none is put in before it, which lines are seen, and what is left
    when the space around a text is trimmed. The modules that read back what was written share it. */
module TextLines {
  import opened Wrappers
  import Text

  function Ending(crlf: bool): string
  {
    if crlf then "\r\n" else "\n"
  }

  function Together(lines: seq<string>, ending: string): string
  {
    if lines == [] then ""
    else if |lines| == 1 then lines[0]
    else lines[0] + ending + Together(lines[1..], ending)
  }

  predicate AllUnbroken(lines: seq<string>)
  {
    forall i :: 0 <= i < |lines| ==> Text.Unbroken(lines[i])
  }

  predicate NoneEmpty(lines: seq<string>)
  {
    forall i :: 0 <= i < |lines| ==> lines[i] != ""
  }

  lemma NothingUnbroken()
    ensures Text.Unbroken("")
  {
  }

  lemma TogetherCons(line: string, lines: seq<string>, ending: string)
    ensures Together([line] + lines, ending) == if lines == [] then line else line + ending + Together(lines, ending)
  {
    assert ([line] + lines)[1..] == lines;
  }

  lemma {:induction false} TogetherConcat(a: seq<string>, b: seq<string>, ending: string)
    requires a != [] && b != []
    ensures Together(a + b, ending) == Together(a, ending) + ending + Together(b, ending)
    decreases |a|
  {
    assert a == [a[0]] + a[1..] && a + b == [a[0]] + (a[1..] + b);
    TogetherCons(a[0], a[1..], ending);
    TogetherCons(a[0], a[1..] + b, ending);
    if |a| > 1 {
      TogetherConcat(a[1..], b, ending);
    } else {
      assert a[1..] + b == b;
    }
  }

  // ---- the first blank line ----

  /** Only whole line breaks inside, never two in a row, and none at the end. */
  predicate CutFree(crlf: bool, text: string)
  {
    if crlf then
      && (forall i :: 0 <= i < |text| && text[i] == '\n' ==> 0 < i && text[i - 1] == '\r')
      && (forall i :: 0 <= i < |text| && text[i] == '\r' ==> i + 2 < |text| && text[i + 2] != '\r')
    else
      && '\r' !in text
      && forall i :: 0 <= i < |text| && text[i] == '\n' ==> i + 1 < |text| && text[i + 1] != '\n'
  }

  lemma UnbrokenCutFree(crlf: bool, line: string)
    requires Text.Unbroken(line)
    ensures CutFree(crlf, line)
  {
    assert forall i :: 0 <= i < |line| ==> line[i] in line;
  }

  lemma LineInFront(crlf: bool, line: string, rest: string)
    requires Text.Unbroken(line) && CutFree(crlf, rest)
    requires rest != "" && rest[0] != '\r' && rest[0] != '\n'
    ensures CutFree(crlf, line + Ending(crlf) + rest)
  {
    var text, n := line + Ending(crlf) + rest, |line| + |Ending(crlf)|;
    forall i | 0 <= i < |text|
      ensures i < |line| ==> text[i] != '\r' && text[i] != '\n'
      ensures i >= n ==> text[i] == rest[i - n]
    {
      assert i < |line| ==> text[i] in line;
    }
  }

  lemma {:induction false} TogetherCutFree(crlf: bool, lines: seq<string>)
    requires AllUnbroken(lines) && NoneEmpty(lines)
    ensures CutFree(crlf, Together(lines, Ending(crlf)))
    ensures lines != [] ==> Together(lines, Ending(crlf)) != "" && Together(lines, Ending(crlf))[0] == lines[0][0]
    decreases |lines|
  {
    hide CutFree, Text.Unbroken, Ending;
    if lines == [] {
      NothingUnbroken();
      UnbrokenCutFree(crlf, "");
    } else {
      UnbrokenCutFree(crlf, lines[0]);
      if |lines| > 1 {
        FirstUnbroken(lines[1]);
        TogetherCutFree(crlf, lines[1..]);
        LineInFront(crlf, lines[0], Together(lines[1..], Ending(crlf)));
      }
    }
  }

  lemma FirstUnbroken(line: string)
    requires Text.Unbroken(line) && line != ""
    ensures line[0] != '\r' && line[0] != '\n'
  {
    assert line[0] in line;
  }

  lemma CrlfCut(lines: string, rest: string)
    requires CutFree(true, lines)
    ensures Text.Find(lines + "\r\n\r\n" + rest, "\r\n\r\n") == Some(|lines|)
  {
    hide Text.Find;
    var text := lines + "\r\n\r\n" + rest;
    forall i | 0 <= i < |lines| ensures !Text.OccursAt(text, "\r\n\r\n", i) {
      assert text[i] == lines[i] && (i + 2 < |lines| ==> text[i + 2] == lines[i + 2]);
      if i + 4 <= |text| {
        var window := text[i..i + 4];
        assert window[0] == text[i] && window[2] == text[i + 2];
      }
    }
    assert text[|lines|..|lines| + 4] == "\r\n\r\n";
    Text.FindIs(text, "\r\n\r\n", |lines|);
  }

  lemma LfCut(lines: string, rest: string)
    requires CutFree(false, lines)
    ensures Text.Find(lines + "\n\n" + rest, "\n\n") == Some(|lines|)
  {
    hide Text.Find;
    var text := lines + "\n\n" + rest;
    forall i | 0 <= i < |lines| ensures !Text.OccursAt(text, "\n\n", i) {
      assert text[i] == lines[i] && (i + 1 < |lines| ==> text[i + 1] == lines[i + 1]);
      if i + 2 <= |text| {
        var window := text[i..i + 2];
        assert window[0] == text[i] && window[1] == text[i + 1];
      }
    }
    assert text[|lines|..|lines| + 2] == "\n\n";
    Text.FindIs(text, "\n\n", |lines|);
  }

  lemma NoCrlf(text: string)
    requires '\r' !in text
    ensures Text.Find(text, "\r\n\r\n").None?
  {
    forall i ensures !Text.OccursAt(text, "\r\n\r\n", i) {
      assert 0 <= i && i + 4 <= |text| ==> text[i..i + 4][0] == text[i];
    }
  }

  // ---- the lines again ----

  lemma LineFirst(crlf: bool, line: string, rest: string)
    requires Text.Unbroken(line)
    ensures Text.Lines(line + Ending(crlf) + rest) == [line] + Text.Lines(rest)
  {
    var text := line + Ending(crlf) + rest;
    var front := if crlf then line + "\r" else line;
    assert text == front + ['\n'] + rest;
    Text.FindAfter(front, '\n', rest);
    assert "\n" == ['\n'];
    assert text[..|front|] == front && text[|front| + 1..] == rest;
    assert Text.WithoutCr(front) == line by {
      if crlf {
        assert front[..|front| - 1] == line;
      } else if line != "" {
        assert line[|line| - 1] in line;
      }
    }
  }

  /** An empty line at the end is not seen. */
  function Seen(lines: seq<string>): seq<string>
  {
    if lines != [] && lines[|lines| - 1] == "" then lines[..|lines| - 1] else lines
  }

  lemma {:induction false} LinesOfTogether(crlf: bool, lines: seq<string>)
    requires AllUnbroken(lines)
    ensures Text.Lines(Together(lines, Ending(crlf))) == Seen(lines)
    decreases |lines|
  {
    hide Text.Lines, Text.Unbroken, Ending;
    if |lines| <= 1 {
      FewLines(lines);
    } else {
      LinesOfTogether(crlf, lines[1..]);
      LineFirst(crlf, lines[0], Together(lines[1..], Ending(crlf)));
      assert [lines[0]] + Seen(lines[1..]) == Seen(lines);
    }
  }

  lemma FewLines(lines: seq<string>)
    requires |lines| <= 1 && AllUnbroken(lines)
    ensures Text.Lines(if lines == [] then "" else lines[0]) == Seen(lines)
  {
    if lines != [] && lines[0] != "" {
      Text.LineAlone(lines[0]);
    }
  }

  // ---- space around a text ----

  predicate AllSpace(s: string)
  {
    forall i :: 0 <= i < |s| ==> Text.IsWhitespace(s[i])
  }

  /** Empty, or without space at either end. */
  predicate Tight(text: string)
  {
    text != "" ==> !Text.IsWhitespace(text[0]) && !Text.IsWhitespace(text[|text| - 1])
  }

  lemma {:induction false} SpaceTrimmed(space: string, text: string)
    requires AllSpace(space) && (text == "" || !Text.IsWhitespace(text[0]))
    ensures Text.TrimStart(space + text) == text
    decreases |space|
  {
    if space == "" {
      assert space + text == text;
    } else {
      assert (space + text)[1..] == space[1..] + text;
      SpaceTrimmed(space[1..], text);
    }
  }

  lemma {:induction false} SpaceTrimmedEnd(text: string, space: string)
    requires AllSpace(space) && (text == "" || !Text.IsWhitespace(text[|text| - 1]))
    ensures Text.TrimEnd(text + space) == text
    decreases |space|
  {
    if space == "" {
      assert text + space == text;
    } else {
      assert (text + space)[..|text + space| - 1] == text + space[..|space| - 1];
      SpaceTrimmedEnd(text, space[..|space| - 1]);
    }
  }

  lemma Trimmed(before: string, text: string, after: string)
    requires AllSpace(before) && AllSpace(after) && Tight(text)
    ensures Text.Trim(before + text + after) == text
  {
    hide Text.TrimStart, Text.TrimEnd;
    if text == "" {
      assert before + text + after == before + after + "";
      SpaceTrimmed(before + after, "");
      SpaceTrimmedEnd("", "");
      assert "" + "" == "";
    } else {
      assert before + text + after == before + (text + after);
      SpaceTrimmed(before, text + after);
      SpaceTrimmedEnd(text, after);
    }
  }
}
