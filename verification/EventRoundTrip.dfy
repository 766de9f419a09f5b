/** Events as a server writes them, read back through the stream decoders (src/daemon.rs). */
module EventRoundTrip {
  import opened Wrappers
  import opened Json
  import opened Utf8
  import opened Streams
  import opened TextLines
  import StreamAcceptance
  import Text

  // ---- what a server writes ----

  /** A line of an SSE event: data after optional space, a comment, or a field of another name. */
  datatype Field =
    | Data(space: string, text: string)
    | Comment(text: string)
    | Other(text: string)

  /** An NDJSON line with optional space around its text, or an SSE event of any number of lines. */
  datatype Item =
    | Spaced(before: string, text: string, after: string)
    | Event(fields: seq<Field>)

  function Shown(field: Field): string
  {
    if field.Data? then "data:" + field.space + field.text
    else if field.Comment? then ":" + field.text
    else field.text
  }

  predicate PlainField(field: Field)
  {
    && Text.Unbroken(Shown(field))
    && (field.Data? ==> AllSpace(field.space) && (field.text == "" || !Text.IsWhitespace(field.text[0])))
    && (field.Other? ==> field.text != "" && field.text[0] != ':' && !("data:" <= field.text))
  }

  /** The item can be written in this framing, and its parts can be told apart. */
  predicate Fits(framing: Framing, item: Item)
  {
    if framing.Ndjson? then
      && item.Spaced? && AllSpace(item.before) && AllSpace(item.after)
      && Text.Unbroken(item.before + item.text + item.after)
      && (item.text != "" ==> !Text.IsWhitespace(item.text[0]) && !Text.IsWhitespace(item.text[|item.text| - 1]))
    else
      item.Event? && forall i :: 0 <= i < |item.fields| ==> PlainField(item.fields[i])
  }

  predicate AllFit(framing: Framing, items: seq<Item>)
  {
    forall i :: 0 <= i < |items| ==> Fits(framing, items[i])
  }

  // ---- what it means by that ----

  function Texts(fields: seq<Field>): seq<string>
  {
    if fields == [] then []
    else (if fields[0].Data? then [fields[0].text] else []) + Texts(fields[1..])
  }

  function OnLines(texts: seq<string>): string
    requires texts != []
  {
    if |texts| == 1 then texts[0] else texts[0] + "\n" + OnLines(texts[1..])
  }

  /** The JSON text of an item: nothing on a blank line, in an event without data, or in one whose
      data is `[DONE]`; the data lines of an event are lines of one text. */
  function Told(item: Item): Option<string>
  {
    if item.Spaced? then (if item.text == "" then None else Some(item.text))
    else
      var texts := Texts(item.fields);
      if texts == [] || texts == ["[DONE]"] then None else Some(OnLines(texts))
  }

  predicate Readable(codec: Codec, item: Item)
  {
    Told(item).Some? ==> codec.parse(Told(item).value).Some?
  }

  /** The values of the items, in order. */
  function Carried(codec: Codec, items: seq<Item>): seq<Value>
    requires forall i :: 0 <= i < |items| ==> Readable(codec, items[i])
  {
    if items == [] then []
    else
      assert Readable(codec, items[0]);
      (if Told(items[0]).Some? then [codec.parse(Told(items[0]).value).value] else []) + Carried(codec, items[1..])
  }

  // ---- how it is written ----

  /** An NDJSON line ends with one line break, an SSE event with two. */
  function End(framing: Framing, crlf: bool): string
  {
    if framing.Sse? then Ending(crlf) + Ending(crlf) else Ending(crlf)
  }

  function AllShown(fields: seq<Field>): seq<string>
  {
    if fields == [] then [] else [Shown(fields[0])] + AllShown(fields[1..])
  }

  function Lines(crlf: bool, item: Item): string
  {
    if item.Spaced? then item.before + item.text + item.after else Together(AllShown(item.fields), Ending(crlf))
  }

  function Written(framing: Framing, crlf: bool, items: seq<Item>): string
  {
    if items == [] then ""
    else Lines(crlf, items[0]) + End(framing, crlf) + Written(framing, crlf, items[1..])
  }

  // ---- the lines of an event ----

  predicate AllPlain(fields: seq<Field>)
  {
    forall i :: 0 <= i < |fields| ==> PlainField(fields[i])
  }

  lemma ShownPlain(field: Field)
    requires PlainField(field)
    ensures Shown(field) != "" && Text.Unbroken(Shown(field))
    ensures Shown(field)[0] != '\r' && Shown(field)[0] != '\n'
  {
    assert Shown(field)[0] in Shown(field);
  }

  lemma {:induction false} AllShownPlain(fields: seq<Field>)
    requires AllPlain(fields)
    ensures AllUnbroken(AllShown(fields)) && NoneEmpty(AllShown(fields)) && |AllShown(fields)| == |fields|
    decreases |fields|
  {
    hide PlainField, Shown, Text.Unbroken;
    if fields != [] {
      ShownPlain(fields[0]);
      AllShownPlain(fields[1..]);
    }
  }

  lemma {:induction false} TextsOfLines(fields: seq<Field>)
    requires AllPlain(fields)
    ensures DataLines(AllShown(fields)) == Texts(fields)
    decreases |fields|
  {
    hide PlainField;
    if fields != [] {
      var lines := AllShown(fields);
      assert lines[0] == Shown(fields[0]) && lines[1..] == AllShown(fields[1..]);
      TextsOfLines(fields[1..]);
      FieldLine(fields[0], lines[1..]);
    }
  }

  lemma FieldLine(field: Field, rest: seq<string>)
    requires PlainField(field)
    ensures DataLines([Shown(field)] + rest) == (if field.Data? then [field.text] else []) + DataLines(rest)
  {
    hide Shown, PlainField, Text.Unbroken, Text.TrimEndMatches, Text.TrimStart;
    var line := Shown(field);
    assert ([line] + rest)[1..] == rest;
    ShownPlain(field);
    NoCrTrimmed(line);
    FieldStart(field);
  }

  lemma NoCrTrimmed(line: string)
    requires line != "" && Text.Unbroken(line)
    ensures Text.TrimEndMatches(line, {'\r'}) == line
  {
    assert line[|line| - 1] in line;
  }

  lemma FieldStart(field: Field)
    requires PlainField(field)
    ensures var line := Shown(field);
            && line != ""
            && (field.Comment? <==> line[0] == ':')
            && (field.Data? <==> Text.StartsWith(line, "data:"))
            && (field.Data? ==> Text.TrimStart(line[5..]) == field.text)
  {
    hide Text.TrimStart;
    var line := Shown(field);
    if field.Data? {
      assert line[..5] == "data:" && line[5..] == field.space + field.text;
      SpaceTrimmed(field.space, field.text);
    }
  }

  lemma {:induction false} JoinedOnLines(texts: seq<string>)
    requires texts != []
    ensures Text.Join(texts, "\n") == OnLines(texts)
    ensures |texts| > 1 ==> '\n' in OnLines(texts)
    decreases |texts|
  {
    if |texts| > 1 {
      JoinedOnLines(texts[1..]);
      assert OnLines(texts)[|texts[0]|] == '\n';
    }
  }

  lemma EventPayload(crlf: bool, item: Item)
    requires Fits(Sse, item)
    ensures Payload(Sse, Lines(crlf, item)) == if Told(item).None? then Nothing else Json(Told(item).value)
  {
    hide Text.Lines, DataLines, Text.Join, PlainField, Together, Texts, OnLines, AllShown;
    AllShownPlain(item.fields);
    LinesOfTogether(crlf, AllShown(item.fields));
    TextsOfLines(item.fields);
    var texts := Texts(item.fields);
    if texts != [] {
      JoinedOnLines(texts);
      assert '\n' !in "[DONE]";
      OneText(texts);
    }
  }

  lemma OneText(texts: seq<string>)
    requires texts != []
    ensures |texts| == 1 ==> OnLines(texts) == texts[0] && texts == [texts[0]]
  {
  }

  // ---- an NDJSON line ----

  lemma LinePayload(crlf: bool, item: Item)
    requires Fits(Ndjson, item)
    ensures Payload(Ndjson, Lines(crlf, item) + if crlf then "\r" else "")
            == if Told(item).None? then Nothing else Json(Told(item).value)
  {
    hide Text.Trim;
    var line := Lines(crlf, item);
    var piece := line + if crlf then "\r" else "";
    assert line != "" ==> line[|line| - 1] in line;
    assert Text.TrimEndMatches(line, {'\r'}) == line;
    if crlf {
      assert piece[..|piece| - 1] == line;
    } else {
      assert piece == line;
    }
    Trimmed(item.before, item.text, item.after);
  }

  // ---- cutting off the first event ----

  /** The piece that is cut off: an NDJSON line keeps its CR. */
  function Piece(framing: Framing, crlf: bool, item: Item): string
  {
    Lines(crlf, item) + if framing.Ndjson? && crlf then "\r" else ""
  }

  lemma LinesCutFree(framing: Framing, crlf: bool, item: Item)
    requires Fits(framing, item)
    ensures CutFree(crlf, Lines(crlf, item))
    ensures framing.Ndjson? ==> '\n' !in Lines(crlf, item)
  {
    hide CutFree, Together, PlainField, AllShown;
    if framing.Ndjson? {
      UnbrokenCutFree(crlf, Lines(crlf, item));
    } else {
      AllShownPlain(item.fields);
      TogetherCutFree(crlf, AllShown(item.fields));
    }
  }

  lemma FirstCut(framing: Framing, crlf: bool, lines: string, rest: string)
    requires CutFree(crlf, lines) && (framing.Ndjson? ==> '\n' !in lines) && (!crlf ==> '\r' !in rest)
    ensures var cut := NextCut(framing, lines + End(framing, crlf) + rest);
            cut.Some?
            && cut.value.pos == |lines| + (if framing.Ndjson? && crlf then 1 else 0)
            && cut.value.pos + cut.value.width == |lines| + |End(framing, crlf)|
  {
    hide Text.Find;
    var text := lines + End(framing, crlf) + rest;
    if framing.Ndjson? {
      FirstAt(text, "\n", |lines| + |End(framing, crlf)| - 1);
    } else if crlf {
      assert End(framing, crlf) == "\r\n\r\n";
      CrlfCut(lines, rest);
    } else {
      assert End(framing, crlf) == "\n\n";
      NoCrlf(text);
      LfCut(lines, rest);
    }
  }

  lemma SplitFirst(framing: Framing, crlf: bool, item: Item, rest: string)
    requires Fits(framing, item) && (!crlf ==> '\r' !in rest)
    ensures var after := Split(framing, rest);
            Split(framing, Lines(crlf, item) + End(framing, crlf) + rest)
            == Pieces([Piece(framing, crlf, item)] + after.complete, after.rest)
  {
    hide NextCut, Fits, Lines, CutFree;
    var lines := Lines(crlf, item);
    LinesCutFree(framing, crlf, item);
    FirstCut(framing, crlf, lines, rest);
    var text := lines + End(framing, crlf) + rest;
    var cut := NextCut(framing, text).value;
    assert text[..cut.pos] == Piece(framing, crlf, item);
    assert text[cut.pos + cut.width..] == rest;
  }

  // ---- one line-ending convention ----

  lemma {:induction false} WrittenOneConvention(framing: Framing, crlf: bool, items: seq<Item>)
    requires AllFit(framing, items)
    ensures var text := Written(framing, crlf, items);
            if crlf then LfAfterCr(text) else '\r' !in text
    decreases |items|
  {
    hide LfAfterCr, Lines, Fits, CutFree, End;
    if items == [] {
      NoLf();
    } else {
      var lines, rest := Lines(crlf, items[0]), Written(framing, crlf, items[1..]);
      LinesCutFree(framing, crlf, items[0]);
      WrittenOneConvention(framing, crlf, items[1..]);
      EndedLines(crlf, lines, framing);
      if crlf {
        LfAfterCrConcat(lines + End(framing, true), rest);
      }
    }
  }

  lemma NoLf()
    ensures LfAfterCr("")
  {
  }

  lemma EndedLines(crlf: bool, lines: string, framing: Framing)
    requires CutFree(crlf, lines)
    ensures var text := lines + End(framing, crlf);
            if crlf then LfAfterCr(text) else '\r' !in text
  {
    var end := End(framing, crlf);
    assert forall i :: 0 <= i < |lines| ==> (lines + end)[i] == lines[i];
    assert forall i :: |lines| <= i < |lines + end| ==> (lines + end)[i] == end[i - |lines|];
  }

  lemma LfAfterCrConcat(a: string, b: string)
    requires LfAfterCr(a) && LfAfterCr(b)
    ensures LfAfterCr(a + b)
  {
    assert forall i :: 0 <= i < |b| ==> (a + b)[|a| + i] == b[i];
  }

  // ---- the round trip ----

  lemma PieceCarries(codec: Codec, framing: Framing, crlf: bool, item: Item)
    requires Fits(framing, item)
    ensures FirstValues(codec, framing, Piece(framing, crlf, item)) ==
            if !Readable(codec, item) then Err(InvalidJson)
            else if Told(item).None? then Ok([]) else Ok([codec.parse(Told(item).value).value])
  {
    hide Payload, Told, Fits, Lines;
    if framing.Ndjson? {
      LinePayload(crlf, item);
    } else {
      EventPayload(crlf, item);
      assert Piece(framing, crlf, item) == Lines(crlf, item);
    }
  }

  predicate AllReadable(codec: Codec, items: seq<Item>)
  {
    forall i :: 0 <= i < |items| ==> Readable(codec, items[i])
  }

  lemma {:induction false} WrittenSplit(codec: Codec, framing: Framing, crlf: bool, items: seq<Item>)
    requires AllFit(framing, items)
    ensures var pieces := Split(framing, Written(framing, crlf, items));
            && pieces.rest == ""
            && Values(codec, framing, pieces.complete) ==
               if AllReadable(codec, items) then Ok(Carried(codec, items)) else Err(InvalidJson)
    decreases |items|
  {
    hide Split, Values, Fits, Readable, Told, Lines, End, Piece, FirstValues;
    if items == [] {
      NothingSplit(codec, framing);
    } else {
      var rest := Written(framing, crlf, items[1..]);
      WrittenSplit(codec, framing, crlf, items[1..]);
      WrittenOneConvention(framing, crlf, items[1..]);
      SplitFirst(framing, crlf, items[0], rest);
      PieceCarries(codec, framing, crlf, items[0]);
      ValuesStep(codec, framing, Piece(framing, crlf, items[0]), Split(framing, rest).complete);
      ReadableStep(codec, items);
    }
  }

  lemma ReadableStep(codec: Codec, items: seq<Item>)
    requires items != []
    ensures AllReadable(codec, items) <==> Readable(codec, items[0]) && AllReadable(codec, items[1..])
  {
    hide Readable;
    assert items == [items[0]] + items[1..];
  }

  lemma NothingSplit(codec: Codec, framing: Framing)
    ensures Split(framing, "") == Pieces([], "") && Values(codec, framing, []) == Ok([])
  {
  }

  /** The text that a server wrote, as the reader sees it once all of it is there. */
  lemma WrittenWhole(codec: Codec, framing: Framing, crlf: bool, items: seq<Item>)
    requires AllFit(framing, items)
    ensures var text := Written(framing, crlf, items);
            && Decode(Encode(text)) == Decoded(text, [], false)
            && Uniform(Sse, text)
  {
    hide AllFit, Encode, Uniform;
    var text := Written(framing, crlf, items);
    DecodeEncoded(text, []);
    DecodeNothing();
    assert Encode(text) + [] == Encode(text) && text + "" == text;
    WrittenOneConvention(framing, crlf, items);
    OneConventionUniform(text);
  }

  /** NDJSON lines or SSE events, with space, blank lines, comments, other fields, `[DONE]` and values
      over several lines among them, LF or CRLF throughout, and sent in any chunks, arrive as the
      values they carry; nothing is held back. */
  lemma EventsArrive(codec: Codec, framing: Framing, crlf: bool, items: seq<Item>, chunks: seq<Bytes>)
    requires AllFit(framing, items) && AllReadable(codec, items)
    requires Body(chunks) == Encode(Written(framing, crlf, items))
    requires FedAll(codec, framing, Buffers([], ""), chunks).error.None?
    ensures FedAll(codec, framing, Buffers([], ""), chunks) == Ran(Buffers([], ""), Carried(codec, items), None)
  {
    hide FedAll, AllFit, AllReadable, Split, Values, Encode, Uniform;
    WrittenWhole(codec, framing, crlf, items);
    WrittenSplit(codec, framing, crlf, items);
    ChunkingIrrelevant(codec, framing, chunks);
  }

  /** And when all of it is at most 1 MiB, it does arrive; an item that cannot be read always ends
      the stream in an error. */
  lemma SmallBodyArrives(codec: Codec, framing: Framing, crlf: bool, items: seq<Item>, chunks: seq<Bytes>)
    requires AllFit(framing, items)
    requires Body(chunks) == Encode(Written(framing, crlf, items)) && |Body(chunks)| <= 1048576
    ensures FedAll(codec, framing, Buffers([], ""), chunks).error.None? <==> AllReadable(codec, items)
    ensures AllReadable(codec, items) ==>
              FedAll(codec, framing, Buffers([], ""), chunks) == Ran(Buffers([], ""), Carried(codec, items), None)
  {
    hide FedAll, AllFit, AllReadable, Split, Values, Encode, Uniform;
    WrittenWhole(codec, framing, crlf, items);
    WrittenSplit(codec, framing, crlf, items);
    StreamAcceptance.AcceptedIff(codec, framing, chunks);
    if AllReadable(codec, items) {
      EventsArrive(codec, framing, crlf, items, chunks);
    }
  }

  lemma DecodeNothing()
    ensures Decode([]) == Decoded("", [], false)
  {
  }

  // ---- values as a JSON library prints them ----

  /** A value on a line of its own. */
  function ItemOf(codec: Codec, framing: Framing, value: Value): Item
  {
    if framing.Ndjson? then Spaced("", codec.show(value), "") else Event([Data(" ", codec.show(value))])
  }

  function ItemsOf(codec: Codec, framing: Framing, values: seq<Value>): seq<Item>
  {
    if values == [] then [] else [ItemOf(codec, framing, values[0])] + ItemsOf(codec, framing, values[1..])
  }

  /** The JSON library prints the value on one line, without space around it, and reads it back. */
  predicate Printable(codec: Codec, value: Value)
  {
    var text := codec.show(value);
    && ReadsBack(codec, value)
    && text != "" && Text.Unbroken(text) && text != "[DONE]"
    && !Text.IsWhitespace(text[0]) && !Text.IsWhitespace(text[|text| - 1])
  }

  lemma ItemOfFits(codec: Codec, framing: Framing, value: Value)
    requires Printable(codec, value)
    ensures Fits(framing, ItemOf(codec, framing, value))
    ensures Told(ItemOf(codec, framing, value)) == Some(codec.show(value))
  {
    var text := codec.show(value);
    if framing.Ndjson? {
      assert "" + text + "" == text;
    } else {
      var fields := [Data(" ", text)];
      assert fields[1..] == [];
      assert Texts(fields) == [text] && OnLines([text]) == text;
    }
  }

  lemma {:induction false} ItemsCarry(codec: Codec, framing: Framing, values: seq<Value>)
    requires forall i :: 0 <= i < |values| ==> Printable(codec, values[i])
    ensures var items := ItemsOf(codec, framing, values);
            AllFit(framing, items) && AllReadable(codec, items) && Carried(codec, items) == values
    decreases |values|
  {
    hide Fits, Told, ItemOf;
    if values != [] {
      ItemOfFits(codec, framing, values[0]);
      ItemsCarry(codec, framing, values[1..]);
      var items := ItemsOf(codec, framing, values);
      assert items[1..] == ItemsOf(codec, framing, values[1..]);
      ReadableStep(codec, items);
      assert items == [items[0]] + items[1..];
      assert values == [values[0]] + values[1..];
    }
  }

  /** Values written one to a line or event, and sent in any chunks, arrive as the same values. */
  lemma ValuesArrive(codec: Codec, framing: Framing, crlf: bool, values: seq<Value>, chunks: seq<Bytes>)
    requires forall i :: 0 <= i < |values| ==> Printable(codec, values[i])
    requires Body(chunks) == Encode(Written(framing, crlf, ItemsOf(codec, framing, values))) && |Body(chunks)| <= 1048576
    ensures FedAll(codec, framing, Buffers([], ""), chunks) == Ran(Buffers([], ""), values, None)
  {
    hide FedAll, AllFit, AllReadable, Encode, Printable;
    ItemsCarry(codec, framing, values);
    SmallBodyArrives(codec, framing, crlf, ItemsOf(codec, framing, values), chunks);
  }
}
