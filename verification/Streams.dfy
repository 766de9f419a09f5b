/** Subscription streams (src/daemon.rs): bytes arrive in chunks of any size, are decoded as
    far as they are whole characters, and are cut into NDJSON lines or SSE events. */
module Streams {
  import opened Wrappers
  import opened Json
  import opened Utf8
  import Text
  import TextLines

  datatype Framing = Ndjson | Sse

  datatype Error = InvalidUtf8 | InvalidJson | BufferExceeded

  const MAX_BUFFER_BYTES: nat := 1024 * 1024

  // ---- cutting text into pieces ----

  datatype Cut = Cut(pos: nat, width: nat)

  /** Where the text is cut next: at a newline, or at a blank line, CRLF ones looked for first. */
  function NextCut(framing: Framing, text: string): (r: Option<Cut>)
    ensures r.Some? ==> r.value.width > 0 && r.value.pos + r.value.width <= |text|
  {
    match framing
    case Ndjson =>
      var pos := Text.Find(text, "\n");
      if pos.Some? then Some(Cut(pos.value, 1)) else None
    case Sse =>
      var crlf := Text.Find(text, "\r\n\r\n");
      var lf := Text.Find(text, "\n\n");
      if crlf.Some? then Some(Cut(crlf.value, 4))
      else if lf.Some? then Some(Cut(lf.value, 2))
      else None
  }

  /** The complete pieces of a text and the unfinished one after them. */
  datatype Pieces = Pieces(complete: seq<string>, rest: string)

  function Split(framing: Framing, text: string): Pieces
    decreases |text|
  {
    var cut := NextCut(framing, text);
    if cut.None? then Pieces([], text)
    else
      var after := Split(framing, text[cut.value.pos + cut.value.width..]);
      Pieces([text[..cut.value.pos]] + after.complete, after.rest)
  }

  // ---- what a piece carries ----

  datatype Carried = Nothing | Json(text: string)

  function DataLines(lines: seq<string>): seq<string>
  {
    if lines == [] then []
    else
      var line := Text.TrimEndMatches(lines[0], {'\r'});
      var rest := DataLines(lines[1..]);
      if line == "" || line[0] == ':' || !Text.StartsWith(line, "data:") then rest
      else [Text.TrimStart(line[5..])] + rest
  }

  /** The JSON text of a non-blank line, or of an event's data lines; `[DONE]` is no data. */
  function Payload(framing: Framing, piece: string): Carried
  {
    match framing
    case Ndjson =>
      var line := Text.Trim(Text.TrimEndMatches(piece, {'\r'}));
      if line == "" then Nothing else Json(line)
    case Sse =>
      var data := DataLines(Text.Lines(piece));
      if data == [] || Text.Join(data, "\n") == "[DONE]" then Nothing else Json(Text.Join(data, "\n"))
  }

  /** The values of all pieces in order; text that is not JSON ends the stream. */
  function Values(codec: Codec, framing: Framing, pieces: seq<string>): Result<seq<Value>, Error>
  {
    if pieces == [] then Ok([])
    else
      var carried := Payload(framing, pieces[0]);
      if carried.Nothing? then Values(codec, framing, pieces[1..])
      else
        var value := codec.parse(carried.text);
        var rest := Values(codec, framing, pieces[1..]);
        if value.None? then Err(InvalidJson)
        else if rest.Err? then rest
        else Ok([value.value] + rest.value)
  }

  // ---- one chunk ----

  datatype Buffers = Buffers(raw: Bytes, text: string)

  /** The buffers after a chunk, and the values it completes. The pieces of an event that is
      not JSON, and all before it, are gone from the text buffer, but the error ends the stream. */
  function Fed(codec: Codec, framing: Framing, buffers: Buffers, chunk: Bytes): Result<(Buffers, seq<Value>), Error>
  {
    if |buffers.raw + chunk| > MAX_BUFFER_BYTES then Err(BufferExceeded)
    else
      var decoded := Decode(buffers.raw + chunk);
      if decoded.invalid then Err(InvalidUtf8)
      else
        var pieces := Split(framing, buffers.text + decoded.text);
        var values := Values(codec, framing, pieces.complete);
        if values.Err? then Err(values.error)
        else if |Encode(pieces.rest)| > MAX_BUFFER_BYTES then Err(BufferExceeded)
        else Ok((Buffers(decoded.rest, pieces.rest), values.value))
  }

  /** A run over a body: what has been recorded, and the error that ended it, if one did. The values
      of a chunk are recorded before the next chunk is read, so an error takes back those of its own
      chunk only. */
  datatype Ran = Ran(buffers: Buffers, recorded: seq<Value>, error: Option<Error>)

  function FedAll(codec: Codec, framing: Framing, buffers: Buffers, chunks: seq<Bytes>): Ran
    decreases |chunks|
  {
    if chunks == [] then Ran(buffers, [], None)
    else
      var first := Fed(codec, framing, buffers, chunks[0]);
      if first.Err? then Ran(buffers, [], Some(first.error))
      else
        var rest := FedAll(codec, framing, first.value.0, chunks[1..]);
        Ran(rest.buffers, first.value.1 + rest.recorded, rest.error)
  }

  // ---- cutting and reading piece by piece ----

  lemma SplitAt(framing: Framing, text: string, cut: Cut)
    requires NextCut(framing, text) == Some(cut)
    ensures var after := Split(framing, text[cut.pos + cut.width..]);
            Split(framing, text) == Pieces([text[..cut.pos]] + after.complete, after.rest)
    ensures Uniform(framing, text) ==> Uniform(framing, text[cut.pos + cut.width..])
  {
    hide NextCut, MixedEndings;
  }

  lemma SplitNone(framing: Framing, text: string)
    requires NextCut(framing, text).None?
    ensures Split(framing, text) == Pieces([], text)
  {
    hide NextCut;
  }

  /** Two results one after the other. */
  function Joined(first: Result<seq<Value>, Error>, second: Result<seq<Value>, Error>): Result<seq<Value>, Error>
  {
    if first.Err? then first else if second.Err? then second else Ok(first.value + second.value)
  }

  lemma JoinedThrice(a: Result<seq<Value>, Error>, b: Result<seq<Value>, Error>, c: Result<seq<Value>, Error>)
    ensures Joined(a, Joined(b, c)) == Joined(Joined(a, b), c)
  {
    if a.Ok? && b.Ok? && c.Ok? {
      assert a.value + (b.value + c.value) == a.value + b.value + c.value;
    }
  }

  /** The values of the first piece. */
  function FirstValues(codec: Codec, framing: Framing, piece: string): Result<seq<Value>, Error>
  {
    var carried := Payload(framing, piece);
    if carried.Nothing? then Ok([])
    else
      var value := codec.parse(carried.text);
      if value.None? then Err(InvalidJson) else Ok([value.value])
  }

  lemma ValuesStep(codec: Codec, framing: Framing, piece: string, pieces: seq<string>)
    ensures Values(codec, framing, [piece] + pieces)
            == Joined(FirstValues(codec, framing, piece), Values(codec, framing, pieces))
  {
    hide Payload;
    assert ([piece] + pieces)[1..] == pieces;
    var rest := Values(codec, framing, pieces);
    assert rest.Ok? ==> [] + rest.value == rest.value;
  }

  /** What is left of the text when draining stops: after the last complete piece, or after the first
      piece that is not JSON. */
  function Undrained(codec: Codec, framing: Framing, text: string): string
    decreases |text|
  {
    var cut := NextCut(framing, text);
    if cut.None? then text
    else
      var rest := text[cut.value.pos + cut.value.width..];
      if FirstValues(codec, framing, text[..cut.value.pos]).Err? then rest else Undrained(codec, framing, rest)
  }

  /** `events` are the values of the pieces cut off `start` so far, `left` is what remains. */
  ghost predicate Drained(codec: Codec, framing: Framing, start: string, left: string, events: seq<Value>)
  {
    var all, rest := Split(framing, start), Split(framing, left);
    && all.rest == rest.rest
    && Undrained(codec, framing, start) == Undrained(codec, framing, left)
    && Values(codec, framing, all.complete) == Joined(Ok(events), Values(codec, framing, rest.complete))
  }

  lemma DrainStart(codec: Codec, framing: Framing, start: string)
    ensures Drained(codec, framing, start, start, [])
  {
    hide Split, Values;
    var values := Values(codec, framing, Split(framing, start).complete);
    assert values.Ok? ==> [] + values.value == values.value;
  }

  lemma DrainStep(codec: Codec, framing: Framing, start: string, left: string, events: seq<Value>, cut: Cut)
    requires Drained(codec, framing, start, left, events) && NextCut(framing, left) == Some(cut)
    ensures var first := FirstValues(codec, framing, left[..cut.pos]);
            if first.Err? then
              && Values(codec, framing, Split(framing, start).complete) == first
              && Undrained(codec, framing, start) == left[cut.pos + cut.width..]
            else Drained(codec, framing, start, left[cut.pos + cut.width..], events + first.value)
  {
    hide Split, Values, FirstValues, NextCut;
    SplitAt(framing, left, cut);
    var first := FirstValues(codec, framing, left[..cut.pos]);
    var rest := Split(framing, left[cut.pos + cut.width..]).complete;
    ValuesStep(codec, framing, left[..cut.pos], rest);
    JoinedThrice(Ok(events), first, Values(codec, framing, rest));
  }

  lemma DrainEnd(codec: Codec, framing: Framing, start: string, left: string, events: seq<Value>)
    requires Drained(codec, framing, start, left, events) && NextCut(framing, left).None?
    ensures Split(framing, start).rest == left && Undrained(codec, framing, start) == left
    ensures Values(codec, framing, Split(framing, start).complete) == Ok(events)
  {
    hide NextCut;
    SplitNone(framing, left);
    assert events + [] == events;
  }

  // ---- the reader ----

  class StreamReader {
    const codec: Codec
    const framing: Framing
    var rawBuffer: Bytes
    var textBuffer: string

    constructor (codec: Codec, framing: Framing)
      ensures this.codec == codec && this.framing == framing
      ensures rawBuffer == [] && textBuffer == ""
    {
      this.codec, this.framing := codec, framing;
      rawBuffer, textBuffer := [], "";
    }

    /** Takes whole characters off the raw bytes. */
    method DecodeUtf8Prefix() returns (r: Result<string, Error>)
      modifies this`rawBuffer
      ensures var d := Decode(old(rawBuffer));
              if d.invalid then r == Err(InvalidUtf8) && rawBuffer == old(rawBuffer)
              else r == Ok(d.text) && rawBuffer == d.rest
    {
      var decoded := Decode(rawBuffer);
      if decoded.invalid {
        return Err(InvalidUtf8);
      }
      rawBuffer := decoded.rest;
      return Ok(decoded.text);
    }

    /** Takes complete pieces off the text, and returns the values they carry. */
    method DrainEvents() returns (r: Result<seq<Value>, Error>)
      modifies this`textBuffer
      ensures var pieces := Split(framing, old(textBuffer));
              var values := Values(codec, framing, pieces.complete);
              if values.Err? then r == values && textBuffer == Undrained(codec, framing, old(textBuffer))
              else
                && textBuffer == pieces.rest
                && r == if |Encode(pieces.rest)| > MAX_BUFFER_BYTES then Err(BufferExceeded) else values
    {
      hide Split, Values, NextCut, Drained, Payload, Undrained;
      var events: seq<Value> := [];
      var cut := NextCut(framing, textBuffer);
      DrainStart(codec, framing, textBuffer);
      while cut.Some?
        invariant cut == NextCut(framing, textBuffer)
        invariant cut.Some? ==> cut.value.width > 0 && cut.value.pos + cut.value.width <= |textBuffer|
        invariant Drained(codec, framing, old(textBuffer), textBuffer, events)
        decreases |textBuffer|
      {
        DrainStep(codec, framing, old(textBuffer), textBuffer, events, cut.value);
        var piece := textBuffer[..cut.value.pos];
        textBuffer := textBuffer[cut.value.pos + cut.value.width..];
        cut := NextCut(framing, textBuffer);
        var carried: Carried;
        if framing.Sse? {
          carried := EventData(piece);
        } else {
          carried := Payload(framing, piece);
        }
        if carried.Nothing? {
          assert events + [] == events;
          continue;
        }
        var value := codec.parse(carried.text);
        if value.None? {
          return Err(InvalidJson);
        }
        events := events + [value.value];
      }
      DrainEnd(codec, framing, old(textBuffer), textBuffer, events);
      if |Encode(textBuffer)| > MAX_BUFFER_BYTES {
        return Err(BufferExceeded);
      }
      return Ok(events);
    }

    /** The loop over the lines of one SSE event. */
    method EventData(piece: string) returns (carried: Carried)
      ensures carried == Payload(Sse, piece)
    {
      var lines := Text.Lines(piece);
      var dataLines: seq<string> := [];
      for i := 0 to |lines|
        invariant DataLines(lines) == dataLines + DataLines(lines[i..])
      {
        assert lines[i..][1..] == lines[i + 1..];
        var line := Text.TrimEndMatches(lines[i], {'\r'});
        if line == "" || line[0] == ':' {
          continue;
        }
        if Text.StartsWith(line, "data:") {
          dataLines := dataLines + [Text.TrimStart(line[5..])];
        }
      }
      assert dataLines == DataLines(lines);
      if dataLines == [] {
        return Nothing;
      }
      var payload := Text.Join(dataLines, "\n");
      if payload == "[DONE]" {
        return Nothing;
      }
      return Json(payload);
    }

    /** The body of the stream loop: one chunk of bytes. */
    method Feed(chunk: Bytes) returns (r: Result<seq<Value>, Error>)
      modifies this
      ensures var fed := Fed(codec, framing, old(Buffers(rawBuffer, textBuffer)), chunk);
              if fed.Err? then r == Err(fed.error)
              else Buffers(rawBuffer, textBuffer) == fed.value.0 && r == Ok(fed.value.1)
    {
      rawBuffer := rawBuffer + chunk;
      if |rawBuffer| > MAX_BUFFER_BYTES {
        return Err(BufferExceeded);
      }
      var decoded := DecodeUtf8Prefix();
      if decoded.Err? {
        return Err(decoded.error);
      }
      textBuffer := textBuffer + decoded.value;
      r := DrainEvents();
    }

    /** The stream loop, until the body ends or an error ends it. */
    method ReadStream(chunks: seq<Bytes>) returns (recorded: seq<Value>, error: Option<Error>)
      modifies this
      ensures var ran := FedAll(codec, framing, old(Buffers(rawBuffer, textBuffer)), chunks);
              && recorded == ran.recorded && error == ran.error
              && (error.None? ==> Buffers(rawBuffer, textBuffer) == ran.buffers)
    {
      hide Fed;
      recorded := [];
      ghost var all := FedAll(codec, framing, Buffers(rawBuffer, textBuffer), chunks);
      for i := 0 to |chunks|
        invariant var rest := FedAll(codec, framing, Buffers(rawBuffer, textBuffer), chunks[i..]);
                  all.recorded == recorded + rest.recorded && all.error == rest.error && all.buffers == rest.buffers
      {
        assert chunks[i..][1..] == chunks[i + 1..];
        var values := Feed(chunks[i]);
        if values.Err? {
          return recorded, Some(values.error);
        }
        recorded := recorded + values.value;
      }
      error := None;
    }
  }

  // ---- chunks and the whole body ----

  function Body(chunks: seq<Bytes>): Bytes
  {
    if chunks == [] then [] else chunks[0] + Body(chunks[1..])
  }

  predicate MixedEndings(text: string)
  {
    var crlf := Text.Find(text, "\r\n\r\n");
    var lf := Text.Find(text, "\n\n");
    crlf.Some? && lf.Some? && lf.value < crlf.value
  }

  /** No LF-LF blank line is left standing before a CRLF one as the text is cut up. */
  predicate Uniform(framing: Framing, text: string)
    decreases |text|
  {
    var cut := NextCut(framing, text);
    && (framing.Sse? ==> !MixedEndings(text))
    && (cut.Some? ==> Uniform(framing, text[cut.value.pos + cut.value.width..]))
  }

  lemma NdjsonUniform(text: string)
    ensures Uniform(Ndjson, text)
    decreases |text|
  {
  }

  /** The next cut of a prefix is the next cut of the text. */
  lemma CutInPrefix(framing: Framing, a: string, b: string)
    requires framing.Sse? ==> !MixedEndings(a + b)
    ensures NextCut(framing, a).Some? ==> NextCut(framing, a + b) == NextCut(framing, a)
  {
    match framing {
      case Ndjson => Text.FindInPrefix(a, b, "\n");
      case Sse =>
        Text.FindInPrefix(a, b, "\r\n\r\n");
        Text.FindInPrefix(a, b, "\n\n");
        var crlf := Text.Find(a + b, "\r\n\r\n");
        var lf := Text.Find(a, "\n\n");
        if crlf.Some? && lf.Some? {
          BlankLinesApart(a + b, crlf.value, lf.value);
        }
    }
  }

  /** A CRLF blank line that starts before an LF one ends with it or earlier. */
  lemma BlankLinesApart(text: string, p: nat, q: nat)
    requires Text.OccursAt(text, "\r\n\r\n", p) && Text.OccursAt(text, "\n\n", q)
    ensures p < q ==> p + 4 <= q + 1
    ensures p != q
  {
    assert text[p..p + 4][0] == text[p] && text[p..p + 4][1] == text[p + 1];
    assert text[p..p + 4][2] == text[p + 2] && text[p..p + 4][3] == text[p + 3];
    assert text[q..q + 2][0] == text[q] && text[q..q + 2][1] == text[q + 1];
  }

  /** Cutting may stop anywhere in a uniform text and go on later with the unfinished piece. */
  lemma {:induction false} SplitInTwo(framing: Framing, a: string, b: string)
    requires Uniform(framing, a + b)
    ensures var first := Split(framing, a); var second := Split(framing, first.rest + b);
            && Split(framing, a + b) == Pieces(first.complete + second.complete, second.rest)
            && Uniform(framing, first.rest + b)
    decreases |a|
  {
    hide NextCut, Split, Uniform;
    CutInPrefixOfUniform(framing, a, b);
    var cut := NextCut(framing, a);
    if cut.Some? {
      var k := cut.value.pos + cut.value.width;
      SplitBothAt(framing, a, b, cut.value);
      SplitInTwo(framing, a[k..], b);
      var first := Split(framing, a[k..]);
      PiecesThrice([a[..cut.value.pos]], first.complete, Split(framing, first.rest + b).complete);
    } else {
      SplitNone(framing, a);
      assert [] + Split(framing, a + b).complete == Split(framing, a + b).complete;
    }
  }

  lemma PiecesThrice(a: seq<string>, b: seq<string>, c: seq<string>)
    ensures a + (b + c) == a + b + c
  {
  }

  /** Both a text and its prefix have the same first piece. */
  lemma SplitBothAt(framing: Framing, a: string, b: string, cut: Cut)
    requires NextCut(framing, a) == Some(cut) && NextCut(framing, a + b) == Some(cut)
    requires cut.pos + cut.width <= |a| && Uniform(framing, a + b)
    ensures var piece, k := a[..cut.pos], cut.pos + cut.width;
            && Split(framing, a) == Pieces([piece] + Split(framing, a[k..]).complete, Split(framing, a[k..]).rest)
            && Split(framing, a + b) == Pieces([piece] + Split(framing, a[k..] + b).complete, Split(framing, a[k..] + b).rest)
            && Uniform(framing, a[k..] + b)
  {
    hide NextCut, Split, Uniform;
    var k := cut.pos + cut.width;
    assert (a + b)[k..] == a[k..] + b && (a + b)[..cut.pos] == a[..cut.pos];
    SplitAt(framing, a, cut);
    SplitAt(framing, a + b, cut);
  }

  lemma CutInPrefixOfUniform(framing: Framing, a: string, b: string)
    requires Uniform(framing, a + b)
    ensures var cut := NextCut(framing, a);
            cut.Some? ==> NextCut(framing, a + b) == cut && cut.value.pos + cut.value.width <= |a| && cut.value.width > 0
  {
    assert framing.Sse? ==> !MixedEndings(a + b);
    CutInPrefix(framing, a, b);
  }

  lemma {:induction false} ValuesConcat(codec: Codec, framing: Framing, a: seq<string>, b: seq<string>)
    ensures Values(codec, framing, a + b) == Joined(Values(codec, framing, a), Values(codec, framing, b))
  {
    hide FirstValues;
    if a == [] {
      assert a + b == b;
      var second := Values(codec, framing, b);
      assert second.Ok? ==> [] + second.value == second.value;
    } else {
      assert a + b == [a[0]] + (a[1..] + b) && a == [a[0]] + a[1..];
      hide Values;
      ValuesStep(codec, framing, a[0], a[1..] + b);
      ValuesStep(codec, framing, a[0], a[1..]);
      ValuesConcat(codec, framing, a[1..], b);
      JoinedThrice(FirstValues(codec, framing, a[0]), Values(codec, framing, a[1..]), Values(codec, framing, b));
    }
  }

  /** What the buffers and the values are once a body has been fed from `buffers` on. */
  ghost predicate Accounted(codec: Codec, framing: Framing, buffers: Buffers, later: Bytes, after: Buffers, values: seq<Value>)
  {
    var whole := Decode(buffers.raw + later);
    var pieces := Split(framing, buffers.text + whole.text);
    && !whole.invalid
    && after == Buffers(whole.rest, pieces.rest)
    && Values(codec, framing, pieces.complete) == Ok(values)
  }

  /** Buffers in which nothing is left to decode or to cut. */
  ghost predicate Settled(framing: Framing, buffers: Buffers)
  {
    && Decode(buffers.raw) == Decoded("", buffers.raw, false)
    && NextCut(framing, buffers.text).None?
  }

  /** After the rest of the body has arrived, whatever chunks it came in, the values are those
      of the pieces of the decoded text. */
  lemma {:induction false} ChunkingFrom(codec: Codec, framing: Framing, buffers: Buffers, chunks: seq<Bytes>)
    requires FedAll(codec, framing, buffers, chunks).error.None?
    requires Uniform(framing, buffers.text + Decode(buffers.raw + Body(chunks)).text)
    requires Settled(framing, buffers)
    ensures var ran := FedAll(codec, framing, buffers, chunks);
            Accounted(codec, framing, buffers, Body(chunks), ran.buffers, ran.recorded)
    decreases |chunks|
  {
    hide Uniform, Fed;
    if chunks == [] {
      hide Decode, Split, NextCut;
      assert buffers.raw + [] == buffers.raw && buffers.text + "" == buffers.text;
      SplitNone(framing, buffers.text);
    } else {
      hide Settled, Accounted, Decode;
      var (next, values) := Fed(codec, framing, buffers, chunks[0]).value;
      var later := Body(chunks[1..]);
      assert buffers.raw + Body(chunks) == buffers.raw + chunks[0] + later;
      ChunkStep(codec, framing, buffers, chunks[0], later);
      ChunkingFrom(codec, framing, next, chunks[1..]);
      var ran := FedAll(codec, framing, next, chunks[1..]);
      AccountedStep(codec, framing, buffers, chunks[0], later, ran.buffers, ran.recorded);
    }
  }

  lemma AccountedStep(codec: Codec, framing: Framing, buffers: Buffers, chunk: Bytes, later: Bytes,
                      after: Buffers, rest: seq<Value>)
    requires Fed(codec, framing, buffers, chunk).Ok?
    requires Uniform(framing, buffers.text + Decode(buffers.raw + chunk + later).text)
    requires Accounted(codec, framing, Fed(codec, framing, buffers, chunk).value.0, later, after, rest)
    ensures Accounted(codec, framing, buffers, chunk + later, after, Fed(codec, framing, buffers, chunk).value.1 + rest)
  {
    hide Uniform, Fed, Decode, Split, Values;
    assert buffers.raw + (chunk + later) == buffers.raw + chunk + later;
    ChunkStep(codec, framing, buffers, chunk, later);
  }

  /** One chunk decoded and cut, with the rest of the body still to come. */
  lemma ChunkStep(codec: Codec, framing: Framing, buffers: Buffers, chunk: Bytes, later: Bytes)
    requires Fed(codec, framing, buffers, chunk).Ok?
    requires Uniform(framing, buffers.text + Decode(buffers.raw + chunk + later).text)
    ensures var (next, values) := Fed(codec, framing, buffers, chunk).value;
            var whole := Decode(buffers.raw + chunk + later);
            var rest := Decode(next.raw + later);
            var pieces, restPieces := Split(framing, buffers.text + whole.text), Split(framing, next.text + rest.text);
            && Settled(framing, next)
            && Uniform(framing, next.text + rest.text)
            && whole.rest == rest.rest && whole.invalid == rest.invalid
            && pieces.rest == restPieces.rest
            && Values(codec, framing, pieces.complete) == Joined(Ok(values), Values(codec, framing, restPieces.complete))
  {
    hide Uniform, Split, Values, NextCut, Decode;
    var bytes := buffers.raw + chunk;
    var decoded := Decode(bytes);
    var rest := Decode(decoded.rest + later);
    var text := buffers.text + decoded.text;
    DecodeSplit(bytes, later);
    HeldBack(bytes);
    assert buffers.text + (decoded.text + rest.text) == text + rest.text;
    SplitInTwo(framing, text, rest.text);
    SplitRest(framing, text);
    ValuesConcat(codec, framing, Split(framing, text).complete,
                 Split(framing, Split(framing, text).rest + rest.text).complete);
  }

  /** What decoding holds back decodes to nothing yet. */
  lemma {:induction false} HeldBack(bs: Bytes)
    ensures Decode(Decode(bs).rest) == Decoded("", Decode(bs).rest, Decode(bs).invalid)
    decreases |bs|
  {
    hide DecodeFirst;
    if bs != [] && DecodeFirst(bs).Char? {
      DecodeFirstSound(bs);
      HeldBack(bs[DecodeFirst(bs).width..]);
    }
  }

  lemma {:induction false} SplitRest(framing: Framing, text: string)
    ensures NextCut(framing, Split(framing, text).rest).None?
    decreases |text|
  {
    var cut := NextCut(framing, text);
    if cut.Some? {
      SplitRest(framing, text[cut.value.pos + cut.value.width..]);
    }
  }

  /** Every error-free run over a body, however it was chunked, emits the values of the body's
      complete pieces in order. The text so far and the bytes held back are all bytes
      received, and those bytes are the start of one character. */
  lemma ChunkingIrrelevant(codec: Codec, framing: Framing, chunks: seq<Bytes>)
    requires FedAll(codec, framing, Buffers([], ""), chunks).error.None?
    requires framing.Sse? ==> Uniform(Sse, Decode(Body(chunks)).text)
    ensures var Ran(after, values, _) := FedAll(codec, framing, Buffers([], ""), chunks);
            var whole := Decode(Body(chunks));
            var pieces := Split(framing, whole.text);
            && Values(codec, framing, pieces.complete) == Ok(values)
            && after == Buffers(whole.rest, pieces.rest)
            && Encode(whole.text) + after.raw == Body(chunks)
            && UnfinishedChar(after.raw)
  {
    assert [] + Body(chunks) == Body(chunks);
    assert "" + Decode(Body(chunks)).text == Decode(Body(chunks)).text;
    if framing.Ndjson? {
      NdjsonUniform(Decode(Body(chunks)).text);
    }
    ChunkingFrom(codec, framing, Buffers([], ""), chunks);
    DecodeExact(Body(chunks));
  }

  // ---- NDJSON pieces are the lines ----

  function Unsplit(pieces: seq<string>): string
  {
    if pieces == [] then "" else pieces[0] + "\n" + Unsplit(pieces[1..])
  }

  lemma FirstNewline(text: string)
    ensures match NextCut(Ndjson, text)
            case None => '\n' !in text
            case Some(cut) => cut.width == 1 && text[cut.pos] == '\n' && '\n' !in text[..cut.pos]
  {
    forall i | 0 <= i < |text| ensures Text.OccursAt(text, "\n", i) <==> text[i] == '\n' {
      Text.OccursSingle(text, '\n', i);
    }
  }

  /** The pieces of an NDJSON text are its newline-ended lines: put back together they are the
      text, and no piece and no rest has a newline in it. */
  lemma {:induction false} NdjsonLines(text: string)
    ensures var pieces := Split(Ndjson, text);
            && Unsplit(pieces.complete) + pieces.rest == text
            && '\n' !in pieces.rest
            && forall i :: 0 <= i < |pieces.complete| ==> '\n' !in pieces.complete[i]
    decreases |text|
  {
    hide NextCut, Split;
    var cut := NextCut(Ndjson, text);
    FirstNewline(text);
    if cut.Some? {
      var pos := cut.value.pos;
      SplitAt(Ndjson, text, cut.value);
      NdjsonLines(text[pos + 1..]);
      var after := Split(Ndjson, text[pos + 1..]);
      assert ([text[..pos]] + after.complete)[1..] == after.complete;
      assert text == text[..pos] + "\n" + text[pos + 1..];
      assert text[..pos] + "\n" + Unsplit(after.complete) + after.rest
             == text[..pos] + "\n" + (Unsplit(after.complete) + after.rest);
    } else {
      SplitNone(Ndjson, text);
    }
  }

  // ---- SSE bodies: exactly when chunking does not matter ----

  predicate LfAfterCr(text: string)
  {
    forall i :: 0 <= i < |text| && text[i] == '\n' ==> 0 < i && text[i - 1] == '\r'
  }

  /** No CR at all, or every LF preceded by CR. */
  predicate OneConvention(text: string)
  {
    '\r' !in text || LfAfterCr(text)
  }

  lemma CutEndsInNewline(text: string)
    ensures var cut := NextCut(Sse, text); cut.Some? ==> text[cut.value.pos + cut.value.width - 1] == '\n'
  {
    var cut := NextCut(Sse, text);
    if cut.Some? {
      var found := text[cut.value.pos..cut.value.pos + cut.value.width];
      assert found[|found| - 1] == text[cut.value.pos + cut.value.width - 1];
    }
  }

  lemma OneConventionNotMixed(text: string)
    requires OneConvention(text)
    ensures !MixedEndings(text)
  {
    hide Text.Find;
    CrlfHasCr(text);
    LfHasTwo(text);
  }

  lemma CrlfHasCr(text: string)
    ensures var p := Text.Find(text, "\r\n\r\n"); p.Some? ==> text[p.value] == '\r'
  {
    var p := Text.Find(text, "\r\n\r\n");
    if p.Some? {
      assert text[p.value..p.value + 4][0] == text[p.value];
    }
  }

  lemma LfHasTwo(text: string)
    ensures var p := Text.Find(text, "\n\n"); p.Some? ==> text[p.value] == '\n' && text[p.value + 1] == '\n'
  {
    var p := Text.Find(text, "\n\n");
    if p.Some? {
      assert text[p.value..p.value + 2][0] == text[p.value] && text[p.value..p.value + 2][1] == text[p.value + 1];
    }
  }

  /** A text with one line-ending convention is uniform. */
  lemma {:induction false} OneConventionUniform(text: string)
    requires OneConvention(text)
    ensures Uniform(Sse, text)
    decreases |text|
  {
    hide NextCut, MixedEndings;
    OneConventionNotMixed(text);
    CutEndsInNewline(text);
    var cut := NextCut(Sse, text);
    if cut.Some? {
      var k := cut.value.pos + cut.value.width;
      var rest := text[k..];
      assert forall i :: 0 <= i < |rest| ==> rest[i] == text[k + i];
      OneConventionUniform(rest);
    }
  }

  /** The pieces of a body that arrives as two chunks of text. */
  function SplitTwice(a: string, b: string): seq<string>
  {
    Split(Sse, a).complete + Split(Sse, Split(Sse, a).rest + b).complete
  }

  /** An SSE text is cut into the same pieces wherever it is divided exactly when it is uniform. */
  lemma SsePiecesIff(text: string)
    ensures Uniform(Sse, text) <==>
            forall k :: 0 <= k <= |text| ==> SplitTwice(text[..k], text[k..]) == Split(Sse, text).complete
  {
    hide Uniform, Split;
    if Uniform(Sse, text) {
      forall k | 0 <= k <= |text| ensures SplitTwice(text[..k], text[k..]) == Split(Sse, text).complete {
        assert text[..k] + text[k..] == text;
        SplitInTwo(Sse, text[..k], text[k..]);
      }
    } else {
      var k := DividingPoint(text);
    }
  }

  /** Divided just after an LF blank line that stands before the first CRLF one, the text is
      cut there, and not where it is cut when it arrives at once. */
  lemma MixedDividing(text: string) returns (k: nat)
    requires MixedEndings(text)
    ensures k <= |text| && SplitTwice(text[..k], text[k..]) != Split(Sse, text).complete
  {
    var p, q := Text.Find(text, "\r\n\r\n").value, Text.Find(text, "\n\n").value;
    k := q + 2;
    assert text[..k] + text[k..] == text;
    MixedCuts(text, p, q);
    hide NextCut;
    assert |Split(Sse, text[..k]).complete[0]| == q;
    assert |Split(Sse, text).complete[0]| == p;
  }

  lemma MixedCuts(text: string, p: nat, q: nat)
    requires Text.Find(text, "\r\n\r\n") == Some(p) && Text.Find(text, "\n\n") == Some(q) && q < p
    ensures NextCut(Sse, text[..q + 2]) == Some(Cut(q, 2)) && NextCut(Sse, text) == Some(Cut(p, 4))
  {
    assert text[..q + 2] + text[q + 2..] == text;
    Text.FindInPrefix(text[..q + 2], text[q + 2..], "\r\n\r\n");
    Text.FindInPrefix(text[..q + 2], text[q + 2..], "\n\n");
  }

  /** A CRLF cut is the next cut of every prefix that reaches beyond it. */
  lemma CrlfCutOfPrefix(text: string, k: nat)
    requires k <= |text| && Text.Find(text, "\r\n\r\n").Some?
    requires Text.Find(text, "\r\n\r\n").value + 4 <= k
    ensures NextCut(Sse, text[..k]) == NextCut(Sse, text) == Some(Cut(Text.Find(text, "\r\n\r\n").value, 4))
  {
    assert text[..k] + text[k..] == text;
    Text.FindInPrefix(text[..k], text[k..], "\r\n\r\n");
  }

  /** A text that is not uniform is cut differently when it is divided at some point. */
  lemma {:induction false} DividingPoint(text: string) returns (k: nat)
    requires !Uniform(Sse, text)
    ensures k <= |text| && SplitTwice(text[..k], text[k..]) != Split(Sse, text).complete
    decreases |text|
  {
    hide NextCut, MixedEndings;
    if MixedEndings(text) {
      k := MixedDividing(text);
    } else {
      if Text.Find(text, "\r\n\r\n").None? {
        UniformWithoutCrlf(text);
      }
      var p := Text.Find(text, "\r\n\r\n").value;
      var rest := text[p + 4..];
      CrlfCutOfPrefix(text, |text|);
      assert text[..|text|] == text;
      var j := DividingPoint(rest);
      k := p + 4 + j;
      CrlfCutOfPrefix(text, k);
      assert text[..k][p + 4..] == rest[..j] && text[k..] == rest[j..] && text[..k][..p] == text[..p];
      assert SplitTwice(text[..k], text[k..]) == [text[..p]] + SplitTwice(rest[..j], rest[j..]);
      assert Split(Sse, text).complete == [text[..p]] + Split(Sse, rest).complete;
      assert SplitTwice(text[..k], text[k..])[1..] == SplitTwice(rest[..j], rest[j..]);
      assert Split(Sse, text).complete[1..] == Split(Sse, rest).complete;
    }
  }

  lemma AbsentFromSuffix(text: string, pat: string, k: nat)
    requires k <= |text| && Text.Find(text, pat).None?
    ensures Text.Find(text[k..], pat).None?
  {
    forall i | 0 <= i && i + |pat| <= |text| - k ensures !Text.OccursAt(text[k..], pat, i) {
      assert text[k..][i..i + |pat|] == text[k + i..k + i + |pat|];
      assert !Text.OccursAt(text, pat, k + i);
    }
  }

  lemma {:induction false} UniformWithoutCrlf(text: string)
    requires Text.Find(text, "\r\n\r\n").None?
    ensures Uniform(Sse, text)
    decreases |text|
  {
    var cut := NextCut(Sse, text);
    if cut.Some? {
      var k := cut.value.pos + cut.value.width;
      AbsentFromSuffix(text, "\r\n\r\n", k);
      UniformWithoutCrlf(text[k..]);
    }
  }

  /** With mixed endings the events depend on the chunks: one event of the lines 1 and 2 when
      the text arrives at once, two events when it arrives in two parts. */
  lemma MixedEndingsMatter()
    ensures var a, b := "data:1\n\n", "data:2\r\n\r\n";
            && Split(Sse, a + b).complete == ["data:1\n\ndata:2"]
            && SplitTwice(a, b) == ["data:1", "data:2"]
  {
    hide NextCut, Split;
    MixedEndingsCuts();
    var a, b := "data:1\n\n", "data:2\r\n\r\n";
    OnePiece(a + b, Cut(14, 4));
    OnePiece(a, Cut(6, 2));
    OnePiece(b, Cut(6, 4));
    assert "" + b == b;
    assert (a + b)[..14] == "data:1\n\ndata:2" && a[..6] == "data:1" && b[..6] == "data:2";
  }

  lemma OnePiece(text: string, cut: Cut)
    requires NextCut(Sse, text) == Some(cut) && cut.pos + cut.width == |text| && NextCut(Sse, "").None?
    ensures Split(Sse, text) == Pieces([text[..cut.pos]], "")
  {
    hide NextCut, Split;
    SplitAt(Sse, text, cut);
    SplitNone(Sse, "");
    assert text[|text|..] == "";
  }

  lemma MixedEndingsCuts()
    ensures var a, b := "data:1\n\n", "data:2\r\n\r\n";
            && NextCut(Sse, a + b) == Some(Cut(14, 4)) && NextCut(Sse, "").None?
            && NextCut(Sse, a) == Some(Cut(6, 2)) && NextCut(Sse, b) == Some(Cut(6, 4))
  {
    hide Text.FindFrom;
    var a, b := "data:1\n\n", "data:2\r\n\r\n";
    FirstAt(a + b, "\r\n\r\n", 14);
    FirstAt(a, "\n\n", 6);
    FirstAt(b, "\r\n\r\n", 6);
    TextLines.NoCrlf(a);
  }

  lemma FirstAt(text: string, pat: string, p: nat)
    requires pat != "" && p + |pat| <= |text|
    requires forall j :: 0 <= j < |pat| ==> text[p + j] == pat[j]
    requires pat[0] !in text[..p]
    ensures Text.Find(text, pat) == Some(p)
  {
    forall i | 0 <= i < p ensures !Text.OccursAt(text, pat, i) {
      assert text[i] in text[..p];
      assert i + |pat| <= |text| ==> text[i..i + |pat|][0] == text[i];
    }
    assert text[p..p + |pat|] == pat;
    Text.FindIs(text, pat, p);
  }
}
