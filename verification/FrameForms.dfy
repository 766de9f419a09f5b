/** Frame headers as another program may write them, and what either reader makes of them (src/daemon.rs). */
module FrameForms {
  import opened Wrappers
  import opened Utf8
  import opened Frames
  import opened TextLines
  import Text

  /** A header line: the length, with space around it, or another field. */
  datatype HeaderLine =
    | Length(before: string, middle: string, text: string, after: string)
    | Other(text: string)

  function LineText(line: HeaderLine): string
  {
    if line.Length? then line.before + "Content-Length:" + line.middle + line.text + line.after else line.text
  }

  predicate PlainLine(line: HeaderLine)
  {
    && LineText(line) != "" && Text.Unbroken(LineText(line))
    && (line.Length? ==> AllSpace(line.before) && AllSpace(line.middle) && AllSpace(line.after) && Tight(line.text))
    && (line.Other? ==> !("Content-Length:" <= Text.Trim(line.text)))
  }

  predicate PlainLines(lines: seq<HeaderLine>)
  {
    forall i :: 0 <= i < |lines| ==> PlainLine(lines[i])
  }

  /** The header: every line and an empty one, each with CRLF. */
  function HeaderOf(lines: seq<HeaderLine>): string
  {
    if lines == [] then "\r\n" else LineText(lines[0]) + "\r\n" + HeaderOf(lines[1..])
  }

  /** The lengths given, in order. */
  function Lengths(lines: seq<HeaderLine>): seq<string>
  {
    if lines == [] then []
    else (if lines[0].Length? then [lines[0].text] else []) + Lengths(lines[1..])
  }

  /** The length that counts: the last one, if there is one and all of them are numbers. */
  function LengthSaid(lines: seq<HeaderLine>): Result<nat, FrameError>
  {
    var lengths := Lengths(lines);
    if exists t :: t in lengths && Text.ParseUsize(t).None? then Err(BadLength)
    else if lengths == [] then Err(MissingLength)
    else
      assert lengths[|lengths| - 1] in lengths;
      Ok(Text.ParseUsize(lengths[|lengths| - 1]).value)
  }

  // ---- the length ----

  lemma LengthLineIs(line: HeaderLine)
    requires PlainLine(line) && line.Length?
    ensures var trimmed := Text.Trim(LineText(line));
            && Text.StartsWith(trimmed, FIELD)
            && Text.Trim(trimmed[|FIELD|..]) == line.text
  {
    hide Text.Trim;
    var core := if line.text == "" then FIELD else FIELD + line.middle + line.text;
    var space := if line.text == "" then line.middle + line.after else line.after;
    assert LineText(line) == line.before + core + space;
    assert core[0] == 'C' && (line.text == "" ==> core[|core| - 1] == ':');
    Trimmed(line.before, core, space);
    assert core[..|FIELD|] == FIELD;
    Trimmed(if line.text == "" then "" else line.middle, line.text, "");
    assert core[|FIELD|..] == (if line.text == "" then "" else line.middle) + line.text + "";
  }

  function Texts(lines: seq<HeaderLine>): seq<string>
  {
    if lines == [] then [] else [LineText(lines[0])] + Texts(lines[1..])
  }

  /** The two empty pieces after the last line. */
  lemma NoLengthLeft(known: Option<nat>)
    ensures LengthFrom(["", ""], known) == if known.Some? then Ok(known.value) else Err(MissingLength)
  {
    assert ["", ""][1..] == [""] && [""][1..] == [];
    assert Text.Trim("") == "";
  }

  lemma LengthStep(line: HeaderLine, rest: seq<string>, known: Option<nat>)
    requires PlainLine(line)
    ensures LengthFrom([LineText(line)] + rest, known) ==
            if line.Other? then LengthFrom(rest, known)
            else
              var length := Text.ParseUsize(line.text);
              if length.None? then Err(BadLength) else LengthFrom(rest, length)
  {
    hide Text.Trim, Text.ParseUsize;
    assert ([LineText(line)] + rest)[1..] == rest;
    if line.Length? {
      LengthLineIs(line);
    } else {
      assert Text.StartsWith(Text.Trim(line.text), FIELD) <==> FIELD <= Text.Trim(line.text);
    }
  }

  /** The length that counts when one has been read before. */
  function SaidAfter(lines: seq<HeaderLine>, known: Option<nat>): Result<nat, FrameError>
  {
    if Lengths(lines) == [] && known.Some? then Ok(known.value) else LengthSaid(lines)
  }

  lemma SaidStep(lines: seq<HeaderLine>, known: Option<nat>)
    requires lines != []
    ensures SaidAfter(lines, known) ==
            if lines[0].Other? then SaidAfter(lines[1..], known)
            else
              var length := Text.ParseUsize(lines[0].text);
              if length.None? then Err(BadLength) else SaidAfter(lines[1..], length)
  {
    hide Text.ParseUsize;
    var rest := Lengths(lines[1..]);
    if lines[0].Length? {
      var t := lines[0].text;
      assert Lengths(lines) == [t] + rest;
      assert t in Lengths(lines);
      assert forall u :: u in Lengths(lines) <==> u == t || u in rest;
    }
  }

  lemma {:induction false} LengthRead(lines: seq<HeaderLine>, known: Option<nat>)
    requires PlainLines(lines)
    ensures LengthFrom(Texts(lines) + ["", ""], known) == SaidAfter(lines, known)
    decreases |lines|
  {
    hide LengthFrom, SaidAfter, PlainLine, LineText, Text.ParseUsize;
    if lines == [] {
      assert Texts(lines) + ["", ""] == ["", ""];
      NoLengthLeft(known);
      NothingSaid(known);
    } else {
      var rest := Texts(lines[1..]) + ["", ""];
      assert Texts(lines) + ["", ""] == [LineText(lines[0])] + rest;
      LengthStep(lines[0], rest, known);
      SaidStep(lines, known);
      LengthRead(lines[1..], if lines[0].Length? then Text.ParseUsize(lines[0].text) else known);
    }
  }

  lemma NothingSaid(known: Option<nat>)
    ensures SaidAfter([], known) == if known.Some? then Ok(known.value) else Err(MissingLength)
  {
  }

  lemma {:induction false} HeaderSplit(lines: seq<HeaderLine>)
    requires PlainLines(lines)
    ensures Text.SplitOn(HeaderOf(lines), "\r\n") == Texts(lines) + ["", ""]
    decreases |lines|
  {
    hide Text.SplitOn, LineText;
    if lines == [] {
      CrlfFirst("", "");
      SplitEmpty();
      assert "" + "\r\n" + "" == "\r\n";
      assert [] + ["", ""] == ["", ""];
    } else {
      HeaderSplit(lines[1..]);
      CrlfFirst(LineText(lines[0]), HeaderOf(lines[1..]));
      assert [LineText(lines[0])] + (Texts(lines[1..]) + ["", ""]) == Texts(lines) + ["", ""];
    }
  }

  // ---- where the header ends ----

  /** In the bytes of a header no CR stands two places before another, but at the very end. */
  predicate OneBlankLine(header: Bytes)
  {
    && |header| >= 2 && header[|header| - 2] == 13 && header[|header| - 1] == 10
    && forall i :: 0 <= i < |header| - 4 && header[i] == 13 ==> header[i + 2] != 13
  }

  lemma {:induction false} EncodeNoCr(text: string)
    requires '\r' !in text
    ensures 13 !in Encode(text) && (text != "" ==> Encode(text) != [])
    decreases |text|
  {
    if text != "" {
      EncodingIs(text[0]);
      EncodeNoCr(text[1..]);
    }
  }

  lemma {:induction false} EncodeConcat(a: string, b: string)
    ensures Encode(a + b) == Encode(a) + Encode(b)
    decreases |a|
  {
    hide EncodeChar;
    if a == "" {
      assert a + b == b;
    } else {
      assert (a + b)[1..] == a[1..] + b;
      EncodeConcat(a[1..], b);
    }
  }

  lemma CrlfBytes()
    ensures Encode("\r\n") == [13, 10]
  {
    assert "\r\n"[1..] == "\n" && "\n"[1..] == "";
  }

  lemma BytesInFront(line: Bytes, rest: Bytes)
    requires 13 !in line && line != []
    requires OneBlankLine(rest) && (|rest| > 2 ==> rest[0] != 13)
    ensures OneBlankLine(line + [13, 10] + rest)
  {
    var all, n := line + [13, 10] + rest, |line|;
    assert forall i :: 0 <= i < n ==> all[i] == line[i] && line[i] in line;
    forall i | 0 <= i < |all| - 4 && all[i] == 13 ensures all[i + 2] != 13 {
      assert i >= n + 2 ==> all[i] == rest[i - n - 2] && all[i + 2] == rest[i - n];
      assert i == n ==> all[i + 2] == rest[0];
    }
  }

  lemma {:induction false} HeaderBytes(lines: seq<HeaderLine>)
    requires PlainLines(lines)
    ensures OneBlankLine(Encode(HeaderOf(lines)))
    ensures lines == [] ==> |Encode(HeaderOf(lines))| == 2
    ensures lines != [] ==> |Encode(HeaderOf(lines))| >= 5 && Encode(HeaderOf(lines))[0] != 13
    ensures lines != [] ==> var header := Encode(HeaderOf(lines)); header[|header| - 4] == 13 && header[|header| - 3] == 10
    decreases |lines|
  {
    hide Encode, LineText, OneBlankLine;
    CrlfBytes();
    if lines == [] {
      EndOnly();
    } else {
      var line, rest := Encode(LineText(lines[0])), Encode(HeaderOf(lines[1..]));
      EncodeNoCr(LineText(lines[0]));
      HeaderBytes(lines[1..]);
      EncodeConcat(LineText(lines[0]) + "\r\n", HeaderOf(lines[1..]));
      EncodeConcat(LineText(lines[0]), "\r\n");
      BytesInFront(line, rest);
      assert Encode(HeaderOf(lines)) == line + [13, 10] + rest;
      assert line[0] in line;
    }
  }

  lemma EndOnly()
    ensures OneBlankLine([13, 10])
  {
  }

  /** A header of at least one line ends at its first blank line, whatever follows. */
  lemma HeaderFound(lines: seq<HeaderLine>, rest: Bytes)
    requires PlainLines(lines) && lines != []
    ensures var header := Encode(HeaderOf(lines)); Text.Find(header + rest, BLANK_LINE) == Some(|header| - 4)
  {
    hide Encode, HeaderOf, PlainLine, Text.Find;
    HeaderBytes(lines);
    var header := Encode(HeaderOf(lines));
    var all, end := header + rest, |header| - 4;
    assert all[end..end + 4] == BLANK_LINE;
    forall i | 0 <= i < end ensures !Text.OccursAt(all, BLANK_LINE, i) {
      var window := all[i..i + 4];
      assert window[0] == header[i] && window[2] == header[i + 2];
    }
    Text.FindIs(all, BLANK_LINE, end);
  }

  lemma HeaderSays(lines: seq<HeaderLine>)
    requires PlainLines(lines)
    ensures LengthIn(Encode(HeaderOf(lines))) == LengthSaid(lines)
  {
    hide Encode, Decode, HeaderOf, PlainLine, LengthFrom, Text.SplitOn;
    var text := HeaderOf(lines);
    DecodeEncoded(text, []);
    NothingDecoded();
    assert Encode(text) + [] == Encode(text) && text + "" == text;
    HeaderSplit(lines);
    LengthRead(lines, None);
  }

  lemma NothingDecoded()
    ensures Decode([]) == Decoded("", [], false)
  {
  }

  /** Any header of whole lines, and what either reader takes after it: the body has the last length
      given, which may be up to 8388608 for the limited reader, whose headers have up to 8193 bytes. */
  lemma FrameMeans(lines: seq<HeaderLine>, after: Bytes, limited: bool)
    requires PlainLines(lines) && lines != []
    ensures var header := Encode(HeaderOf(lines));
            Take(header + after, limited) ==
            if limited && |header| > 8193 then Err(HeaderTooLarge)
            else
              var length := LengthSaid(lines);
              if length.Err? then Err(length.error)
              else if limited && length.value > 8388608 then Err(BodyTooLarge)
              else if length.value > |after| then Err(EndOfInput)
              else Ok(Taken(after[..length.value], after[length.value..]))
  {
    hide Encode, HeaderOf, PlainLine, LengthIn, LengthSaid, Text.Find;
    var header := Encode(HeaderOf(lines));
    HeaderBytes(lines);
    HeaderFound(lines, after);
    HeaderSays(lines);
    var all := header + after;
    assert all[..|header|] == header;
    if LengthSaid(lines).Ok? && LengthSaid(lines).value <= |after| {
      var n := LengthSaid(lines).value;
      assert all[|header|..|header| + n] == after[..n] && all[|header| + n..] == after[n..];
    }
  }

  /** What the writer itself sends before a body of two bytes. */
  lemma WrittenHeader()
    ensures Frame([123, 125]) == Encode("Content-Length: 2\r\n\r\n") + [123, 125]
  {
    hide Encode;
    assert Text.ShowNat(2) == "2";
    assert HeaderText(2) == "Content-Length: 2\r\n\r\n";
  }
}
