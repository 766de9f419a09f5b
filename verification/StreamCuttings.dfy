/** When what is recorded of a stream depends on the chunks it comes in (src/daemon.rs): the exact
    condition on the body, over all its divisions into chunks. Without an error it is about what may be
    cut first at each place; with one, also about what stands before it. */
module StreamCuttings {
  import opened Wrappers
  import opened Json
  import opened Utf8
  import opened Streams
  import opened StreamAcceptance
  import Text

  /** The values a run records, and the error that ends it, if one does. */
  datatype Record = Record(values: seq<Value>, error: Option<Error>)

  function Then(first: Record, second: Record): Record
  {
    if first.error.Some? then first else Record(first.values + second.values, second.error)
  }

  /** What is recorded of one chunk whose pieces carry these values, or an error. */
  function Kept(values: Result<seq<Value>, Error>): Record
  {
    if values.Ok? then Record(values.value, None) else Record([], Some(values.error))
  }

  /** What the complete pieces of a text carry. */
  function Emit(codec: Codec, framing: Framing, text: string): Result<seq<Value>, Error>
  {
    Values(codec, framing, Split(framing, text).complete)
  }

  // ---- the cuts that may be made first ----

  /** An LF blank line before the CRLF one is cut at if the CRLF one has not arrived yet. */
  function EarlyCut(framing: Framing, text: string): (r: Option<Cut>)
    ensures r.Some? ==> r.value.width > 0 && r.value.pos + r.value.width <= |text|
  {
    var lf := Text.Find(text, "\n\n");
    if framing.Sse? && MixedEndings(text) && lf.Some? then Some(Cut(lf.value, 2)) else None
  }

  predicate MayCut(framing: Framing, text: string, cut: Cut)
  {
    NextCut(framing, text) == Some(cut) || EarlyCut(framing, text) == Some(cut)
  }

  function First(codec: Codec, framing: Framing, text: string, cut: Cut): Result<seq<Value>, Error>
    requires cut.pos + cut.width <= |text|
  {
    FirstValues(codec, framing, text[..cut.pos])
  }

  function After(text: string, cut: Cut): string
    requires cut.pos + cut.width <= |text|
  {
    text[cut.pos + cut.width..]
  }

  /** What the text carries when it is cut here first and the rest arrives at once. */
  function EmitCut(codec: Codec, framing: Framing, text: string, cut: Cut): Result<seq<Value>, Error>
    requires cut.pos + cut.width <= |text|
  {
    Joined(First(codec, framing, text, cut), Emit(codec, framing, After(text, cut)))
  }

  // ---- three kinds of text ----

  /** Whatever is cut first, the text carries the same, and so on with what follows. */
  predicate Indifferent(codec: Codec, framing: Framing, text: string)
    decreases |text|
  {
    var cut, early := NextCut(framing, text), EarlyCut(framing, text);
    && (cut.Some? && First(codec, framing, text, cut.value).Ok? ==> Indifferent(codec, framing, After(text, cut.value)))
    && (early.Some? ==>
          && EmitCut(codec, framing, text, early.value) == Emit(codec, framing, text)
          && (First(codec, framing, text, early.value).Ok? ==> Indifferent(codec, framing, After(text, early.value))))
  }

  /** Whatever is cut first, a piece that is not JSON comes up, and no value before it. */
  predicate Barren(codec: Codec, framing: Framing, text: string)
    decreases |text|
  {
    var cut, early := NextCut(framing, text), EarlyCut(framing, text);
    && cut.Some?
    && (First(codec, framing, text, cut.value).Ok? ==>
          First(codec, framing, text, cut.value).value == [] && Barren(codec, framing, After(text, cut.value)))
    && (early.Some? && First(codec, framing, text, early.value).Ok? ==>
          First(codec, framing, text, early.value).value == [] && Barren(codec, framing, After(text, early.value)))
  }

  /** Whatever is cut first, no piece carries anything. */
  predicate Silent(codec: Codec, framing: Framing, text: string)
    decreases |text|
  {
    var cut, early := NextCut(framing, text), EarlyCut(framing, text);
    && (cut.Some? ==>
          First(codec, framing, text, cut.value) == Ok([]) && Silent(codec, framing, After(text, cut.value)))
    && (early.Some? ==>
          First(codec, framing, text, early.value) == Ok([]) && Silent(codec, framing, After(text, early.value)))
  }

  /** A uniform text is indifferent, whatever it carries. */
  lemma {:induction false} UniformIndifferent(codec: Codec, framing: Framing, text: string)
    requires Uniform(framing, text)
    ensures Indifferent(codec, framing, text)
    decreases |text|
  {
    hide FirstValues, Text.Find, Emit;
    var cut := NextCut(framing, text);
    if cut.Some? {
      UniformIndifferent(codec, framing, text[cut.value.pos + cut.value.width..]);
    }
  }

  lemma EmitIs(codec: Codec, framing: Framing, text: string)
    ensures var cut := NextCut(framing, text);
            Emit(codec, framing, text) == if cut.Some? then EmitCut(codec, framing, text, cut.value) else Ok([])
  {
    hide FirstValues, NextCut, Split, Values;
    var cut := NextCut(framing, text);
    if cut.Some? {
      SplitAt(framing, text, cut.value);
      ValuesStep(codec, framing, text[..cut.value.pos], Split(framing, text[cut.value.pos + cut.value.width..]).complete);
    } else {
      SplitNone(framing, text);
      NoValues(codec, framing);
    }
  }

  lemma NoValues(codec: Codec, framing: Framing)
    ensures Values(codec, framing, []) == Ok([])
  {
  }

  lemma IndifferentCut(codec: Codec, framing: Framing, text: string, cut: Cut)
    requires Indifferent(codec, framing, text) && MayCut(framing, text, cut)
    ensures cut.pos + cut.width <= |text| && EmitCut(codec, framing, text, cut) == Emit(codec, framing, text)
    ensures First(codec, framing, text, cut).Ok? ==> Indifferent(codec, framing, After(text, cut))
  {
    hide First, Emit, EmitCut, EarlyCut, NextCut;
    EmitIs(codec, framing, text);
  }

  lemma BarrenCut(codec: Codec, framing: Framing, text: string, cut: Cut)
    requires Barren(codec, framing, text) && MayCut(framing, text, cut)
    ensures cut.pos + cut.width <= |text|
    ensures First(codec, framing, text, cut).Ok? ==>
              First(codec, framing, text, cut).value == [] && Barren(codec, framing, After(text, cut))
  {
    hide First, EarlyCut, NextCut;
  }

  lemma SilentCut(codec: Codec, framing: Framing, text: string, cut: Cut)
    requires Silent(codec, framing, text) && MayCut(framing, text, cut)
    ensures cut.pos + cut.width <= |text|
    ensures First(codec, framing, text, cut) == Ok([]) && Silent(codec, framing, After(text, cut))
  {
    hide First, EarlyCut, NextCut;
  }

  // ---- text that arrives in parts ----

  function Concat(texts: seq<string>): string
  {
    if texts == [] then "" else texts[0] + Concat(texts[1..])
  }

  function RunTexts(codec: Codec, framing: Framing, buffer: string, texts: seq<string>): Record
    decreases |texts|
  {
    if texts == [] then Record([], None)
    else
      var pieces := Split(framing, buffer + texts[0]);
      Then(Kept(Values(codec, framing, pieces.complete)), RunTexts(codec, framing, pieces.rest, texts[1..]))
  }

  /** The next cut of a part is one that the whole text may have first. */
  lemma CutOfPart(framing: Framing, now: string, later: string)
    requires NextCut(framing, now).Some?
    ensures MayCut(framing, now + later, NextCut(framing, now).value)
  {
    hide Text.Find;
    var whole := now + later;
    Text.FindInPrefix(now, later, "\n");
    Text.FindInPrefix(now, later, "\r\n\r\n");
    Text.FindInPrefix(now, later, "\n\n");
    var crlf, lf := Text.Find(whole, "\r\n\r\n"), Text.Find(whole, "\n\n");
    if crlf.Some? && lf.Some? {
      BlankLinesApart(whole, crlf.value, lf.value);
    }
  }

  lemma PartSlices(now: string, later: string, cut: Cut)
    requires cut.pos + cut.width <= |now|
    ensures (now + later)[..cut.pos] == now[..cut.pos]
    ensures After(now + later, cut) == now[cut.pos + cut.width..] + later
  {
  }

  /** Cutting what has arrived and then the rest carries what the whole carries. */
  lemma {:induction false} PartFirst(codec: Codec, framing: Framing, now: string, later: string)
    requires Indifferent(codec, framing, now + later)
    ensures var pieces := Split(framing, now);
            var values := Values(codec, framing, pieces.complete);
            && Joined(values, Emit(codec, framing, pieces.rest + later)) == Emit(codec, framing, now + later)
            && (values.Ok? ==> Indifferent(codec, framing, pieces.rest + later))
    decreases |now|
  {
    hide NextCut, Values, Split, FirstValues, MayCut, Indifferent, Emit;
    var cut := NextCut(framing, now);
    if cut.None? {
      SplitNone(framing, now);
      NothingJoined(codec, framing, now + later);
    } else {
      var k := cut.value.pos + cut.value.width;
      CutOfPart(framing, now, later);
      IndifferentCut(codec, framing, now + later, cut.value);
      SplitAt(framing, now, cut.value);
      PartSlices(now, later, cut.value);
      var first := FirstValues(codec, framing, now[..cut.value.pos]);
      var rest := Split(framing, now[k..]);
      ValuesStep(codec, framing, now[..cut.value.pos], rest.complete);
      if first.Ok? {
        PartFirst(codec, framing, now[k..], later);
        JoinedThrice(first, Values(codec, framing, rest.complete), Emit(codec, framing, rest.rest + later));
      }
    }
  }

  lemma NothingJoined(codec: Codec, framing: Framing, text: string)
    ensures Values(codec, framing, []) == Ok([])
    ensures Joined(Ok([]), Emit(codec, framing, text)) == Emit(codec, framing, text)
  {
    var values := Emit(codec, framing, text);
    assert values.Ok? ==> [] + values.value == values.value;
  }

  /** What has arrived of a barren text is barren so far. */
  lemma {:induction false} PartBarren(codec: Codec, framing: Framing, now: string, later: string)
    requires Barren(codec, framing, now + later)
    ensures var pieces := Split(framing, now);
            var values := Values(codec, framing, pieces.complete);
            values.Ok? ==> values.value == [] && Barren(codec, framing, pieces.rest + later)
    decreases |now|
  {
    hide NextCut, Values, Split, FirstValues, MayCut, Barren;
    var cut := NextCut(framing, now);
    if cut.None? {
      SplitNone(framing, now);
      NoValues(codec, framing);
    } else {
      var k := cut.value.pos + cut.value.width;
      CutOfPart(framing, now, later);
      BarrenCut(codec, framing, now + later, cut.value);
      SplitAt(framing, now, cut.value);
      PartSlices(now, later, cut.value);
      ValuesStep(codec, framing, now[..cut.value.pos], Split(framing, now[k..]).complete);
      if FirstValues(codec, framing, now[..cut.value.pos]).Ok? {
        PartBarren(codec, framing, now[k..], later);
      }
    }
  }

  lemma {:induction false} PartSilent(codec: Codec, framing: Framing, now: string, later: string)
    requires Silent(codec, framing, now + later)
    ensures var pieces := Split(framing, now);
            Values(codec, framing, pieces.complete) == Ok([]) && Silent(codec, framing, pieces.rest + later)
    decreases |now|
  {
    hide NextCut, Values, Split, FirstValues, MayCut, Silent;
    var cut := NextCut(framing, now);
    if cut.None? {
      SplitNone(framing, now);
      NoValues(codec, framing);
    } else {
      var k := cut.value.pos + cut.value.width;
      CutOfPart(framing, now, later);
      SilentCut(codec, framing, now + later, cut.value);
      SplitAt(framing, now, cut.value);
      PartSlices(now, later, cut.value);
      ValuesStep(codec, framing, now[..cut.value.pos], Split(framing, now[k..]).complete);
      PartSilent(codec, framing, now[k..], later);
      var none: seq<Value> := [];
      assert none + none == none;
    }
  }

  /** An indifferent text without an error is recorded the same in whatever parts it arrives. */
  lemma {:induction false} IndifferentParts(codec: Codec, framing: Framing, buffer: string, texts: seq<string>)
    requires NextCut(framing, buffer).None? && Indifferent(codec, framing, buffer + Concat(texts))
    requires Emit(codec, framing, buffer + Concat(texts)).Ok?
    ensures RunTexts(codec, framing, buffer, texts) == Record(Emit(codec, framing, buffer + Concat(texts)).value, None)
    decreases |texts|
  {
    hide NextCut, Values, Split, Indifferent, Emit;
    if texts == [] {
      assert buffer + "" == buffer;
      EmitIs(codec, framing, buffer);
    } else {
      var now, later := buffer + texts[0], Concat(texts[1..]);
      assert buffer + (texts[0] + later) == now + later;
      PartFirst(codec, framing, now, later);
      SplitRest(framing, now);
      IndifferentParts(codec, framing, Split(framing, now).rest, texts[1..]);
    }
  }

  /** Of a barren text nothing is recorded but the error. */
  lemma {:induction false} BarrenParts(codec: Codec, framing: Framing, buffer: string, texts: seq<string>)
    requires NextCut(framing, buffer).None? && Barren(codec, framing, buffer + Concat(texts))
    ensures RunTexts(codec, framing, buffer, texts) == Record([], Some(InvalidJson))
    decreases |texts|
  {
    hide NextCut, Values, Split;
    assert buffer + "" == buffer;
    if texts != [] {
      hide Barren;
      var now, later := buffer + texts[0], Concat(texts[1..]);
      assert buffer + (texts[0] + later) == now + later;
      PartBarren(codec, framing, now, later);
      SplitRest(framing, now);
      OnlyInvalidJson(codec, framing, Split(framing, now).complete);
      if Values(codec, framing, Split(framing, now).complete).Ok? {
        BarrenParts(codec, framing, Split(framing, now).rest, texts[1..]);
      }
    }
  }

  lemma {:induction false} OnlyInvalidJson(codec: Codec, framing: Framing, pieces: seq<string>)
    ensures Values(codec, framing, pieces).Err? ==> Values(codec, framing, pieces) == Err(InvalidJson)
  {
    hide Payload;
    if pieces != [] {
      OnlyInvalidJson(codec, framing, pieces[1..]);
    }
  }

  // ---- parts that tell a text from its whole ----

  /** The first part is one event exactly; then comes what is recorded of the other parts. */
  lemma FirstEventAlone(codec: Codec, framing: Framing, text: string, cut: Cut, texts: seq<string>)
    requires cut.width > 0 && cut.pos + cut.width <= |text|
    requires NextCut(framing, text[..cut.pos + cut.width]) == Some(cut)
    ensures RunTexts(codec, framing, "", [text[..cut.pos + cut.width]] + texts)
            == Then(Kept(First(codec, framing, text, cut)), RunTexts(codec, framing, "", texts))
  {
    hide NextCut, Values, FirstValues, Split;
    var k := cut.pos + cut.width;
    var head, all := text[..k], [text[..k]] + texts;
    assert "" + head == head && all[1..] == texts;
    SplitAt(framing, head, cut);
    assert head[k..] == "" && head[..cut.pos] == text[..cut.pos];
    EmptySplit(framing);
    ValuesStep(codec, framing, head[..cut.pos], []);
    JoinedNothing(codec, framing, First(codec, framing, text, cut));
  }

  lemma EmptySplit(framing: Framing)
    ensures Split(framing, "") == Pieces([], "")
  {
  }

  lemma JoinedNothing(codec: Codec, framing: Framing, first: Result<seq<Value>, Error>)
    ensures Values(codec, framing, []) == Ok([]) && Joined(first, Ok([])) == first
  {
    assert first.Ok? ==> first.value + [] == first.value;
  }

  lemma OnePart(codec: Codec, framing: Framing, text: string)
    ensures RunTexts(codec, framing, "", [text]) == Kept(Emit(codec, framing, text))
  {
    hide Values, Split;
    assert "" + text == text && [text][1..] == [];
    ThenNothing(Kept(Emit(codec, framing, text)));
    assert RunTexts(codec, framing, Split(framing, text).rest, []) == Record([], None);
  }

  lemma ThenNothing(first: Record)
    ensures Then(first, Record([], None)) == first && Then(Record([], None), first) == first
  {
    assert first.values + [] == first.values && [] + first.values == first.values;
  }

  /** Two parts, divided after a cut that may be made first. */
  lemma TwoParts(codec: Codec, framing: Framing, text: string, cut: Cut)
    requires cut.width > 0 && cut.pos + cut.width <= |text|
    requires NextCut(framing, text[..cut.pos + cut.width]) == Some(cut)
    ensures RunTexts(codec, framing, "", [text[..cut.pos + cut.width], After(text, cut)])
            == Then(Kept(First(codec, framing, text, cut)), Kept(Emit(codec, framing, After(text, cut))))
  {
    hide NextCut, First, RunTexts, Emit;
    FirstEventAlone(codec, framing, text, cut, [After(text, cut)]);
    assert [text[..cut.pos + cut.width]] + [After(text, cut)] == [text[..cut.pos + cut.width], After(text, cut)];
    OnePart(codec, framing, After(text, cut));
  }

  /** A part that ends with the cut is cut there. */
  lemma CutAlone(framing: Framing, text: string, cut: Cut)
    requires MayCut(framing, text, cut)
    ensures cut.width > 0 && cut.pos + cut.width <= |text| && NextCut(framing, text[..cut.pos + cut.width]) == Some(cut)
  {
    hide Text.Find;
    var k := cut.pos + cut.width;
    assert text[..k] + text[k..] == text;
    Text.FindInPrefix(text[..k], text[k..], "\n");
    Text.FindInPrefix(text[..k], text[k..], "\r\n\r\n");
    Text.FindInPrefix(text[..k], text[k..], "\n\n");
  }

  lemma ConcatCons(text: string, texts: seq<string>)
    ensures Concat([text] + texts) == text + Concat(texts)
  {
    assert ([text] + texts)[1..] == texts;
  }

  lemma ConcatOne(text: string)
    ensures Concat([text]) == text
  {
    assert [text][1..] == [] && text + "" == text;
  }

  /** Parts of what follows a cut, with the text up to it in front. */
  lemma PartsAfter(codec: Codec, framing: Framing, text: string, cut: Cut, rest: seq<string>) returns (texts: seq<string>)
    requires MayCut(framing, text, cut) && cut.pos + cut.width <= |text| && Concat(rest) == After(text, cut)
    ensures Concat(texts) == text
    ensures RunTexts(codec, framing, "", texts)
            == Then(Kept(First(codec, framing, text, cut)), RunTexts(codec, framing, "", rest))
  {
    hide NextCut, First, RunTexts, Concat, MayCut;
    CutAlone(framing, text, cut);
    texts := [text[..cut.pos + cut.width]] + rest;
    FirstEventAlone(codec, framing, text, cut, rest);
    ConcatCons(text[..cut.pos + cut.width], rest);
    assert text[..cut.pos + cut.width] + text[cut.pos + cut.width..] == text;
  }

  lemma TwoPartsOf(codec: Codec, framing: Framing, text: string, cut: Cut) returns (texts: seq<string>)
    requires MayCut(framing, text, cut) && cut.pos + cut.width <= |text|
    ensures Concat(texts) == text
    ensures RunTexts(codec, framing, "", texts)
            == Then(Kept(First(codec, framing, text, cut)), Kept(Emit(codec, framing, After(text, cut))))
  {
    hide NextCut, First, RunTexts, Concat, MayCut, Emit;
    ConcatOne(After(text, cut));
    OnePart(codec, framing, After(text, cut));
    texts := PartsAfter(codec, framing, text, cut, [After(text, cut)]);
  }

  lemma ThenDiffers(first: Record, a: Record, b: Record)
    requires first.error.None? && a != b
    ensures Then(first, a) != Then(first, b)
  {
    var n := |first.values|;
    assert (first.values + a.values)[n..] == a.values && (first.values + b.values)[n..] == b.values;
  }

  lemma KeptJoined(first: Result<seq<Value>, Error>, rest: Result<seq<Value>, Error>)
    requires Joined(first, rest).Ok?
    ensures Then(Kept(first), Kept(rest)) == Kept(Joined(first, rest))
  {
  }

  /** A text without an error that is not indifferent is recorded otherwise in some parts. */
  lemma {:induction false} TellingParts(codec: Codec, framing: Framing, text: string) returns (texts: seq<string>)
    requires !Indifferent(codec, framing, text) && Emit(codec, framing, text).Ok?
    ensures Concat(texts) == text && RunTexts(codec, framing, "", texts) != Kept(Emit(codec, framing, text))
    decreases |text|
  {
    hide NextCut, First, Emit, RunTexts, Concat, EarlyCut;
    EmitIs(codec, framing, text);
    var cut, early := NextCut(framing, text), EarlyCut(framing, text);
    if cut.Some? && First(codec, framing, text, cut.value).Ok? && !Indifferent(codec, framing, After(text, cut.value)) {
      texts := TellingAfter(codec, framing, text, cut.value);
    } else if EmitCut(codec, framing, text, early.value) == Emit(codec, framing, text) {
      texts := TellingAfter(codec, framing, text, early.value);
    } else {
      texts := TwoPartsOf(codec, framing, text, early.value);
      KeptDiffers(First(codec, framing, text, early.value), Emit(codec, framing, After(text, early.value)), Emit(codec, framing, text));
    }
  }

  lemma KeptDiffers(first: Result<seq<Value>, Error>, rest: Result<seq<Value>, Error>, whole: Result<seq<Value>, Error>)
    requires whole.Ok? && Joined(first, rest) != whole
    ensures Then(Kept(first), Kept(rest)) != Kept(whole)
  {
  }

  lemma {:induction false} TellingAfter(codec: Codec, framing: Framing, text: string, cut: Cut) returns (texts: seq<string>)
    requires MayCut(framing, text, cut) && cut.width > 0 && cut.pos + cut.width <= |text|
    requires First(codec, framing, text, cut).Ok? && !Indifferent(codec, framing, After(text, cut))
    requires Emit(codec, framing, text).Ok? && EmitCut(codec, framing, text, cut) == Emit(codec, framing, text)
    ensures Concat(texts) == text && RunTexts(codec, framing, "", texts) != Kept(Emit(codec, framing, text))
    decreases |text|, 0
  {
    hide NextCut, MayCut, First, Indifferent, Emit, RunTexts, Concat;
    var rest := TellingParts(codec, framing, After(text, cut));
    texts := PartsAfter(codec, framing, text, cut, rest);
    var first, later := First(codec, framing, text, cut), Emit(codec, framing, After(text, cut));
    ThenDiffers(Kept(first), RunTexts(codec, framing, "", rest), Kept(later));
    KeptJoined(first, later);
  }

  /** Of a text that is not barren, in some parts a value is recorded, or no error. */
  lemma {:induction false} NotBarrenParts(codec: Codec, framing: Framing, text: string) returns (texts: seq<string>)
    requires !Barren(codec, framing, text)
    ensures Concat(texts) == text && RunTexts(codec, framing, "", texts) != Record([], Some(InvalidJson))
    decreases |text|
  {
    hide NextCut, First, Emit, RunTexts, Concat, EarlyCut;
    var cut, early := NextCut(framing, text), EarlyCut(framing, text);
    if cut.None? {
      texts := [text];
      EmitIs(codec, framing, text);
      OnePart(codec, framing, text);
      ConcatOne(text);
    } else {
      var fertile := if First(codec, framing, text, cut.value).Ok?
                        && (First(codec, framing, text, cut.value).value != [] || !Barren(codec, framing, After(text, cut.value)))
                     then cut.value else early.value;
      if First(codec, framing, text, fertile).value != [] {
        texts := TwoPartsOf(codec, framing, text, fertile);
        RecordsFirst(First(codec, framing, text, fertile).value, Kept(Emit(codec, framing, After(text, fertile))));
      } else {
        var rest := NotBarrenParts(codec, framing, After(text, fertile));
        texts := PartsAfter(codec, framing, text, fertile, rest);
        ThenNothing(RunTexts(codec, framing, "", rest));
      }
    }
  }

  lemma RecordsFirst(values: seq<Value>, rest: Record)
    requires values != []
    ensures Then(Record(values, None), rest).values != []
  {
  }

  /** Of a text that is not silent, in some parts something is recorded, a value or an error. */
  lemma {:induction false} NotSilentParts(codec: Codec, framing: Framing, text: string) returns (texts: seq<string>)
    requires !Silent(codec, framing, text)
    ensures Concat(texts) == text && RunTexts(codec, framing, "", texts) != Record([], None)
    decreases |text|
  {
    hide NextCut, First, Emit, RunTexts, Concat, EarlyCut;
    var cut, early := NextCut(framing, text), EarlyCut(framing, text);
    var loud := if cut.Some? && (First(codec, framing, text, cut.value) != Ok([]) || !Silent(codec, framing, After(text, cut.value)))
                then cut.value else early.value;
    if First(codec, framing, text, loud) != Ok([]) {
      texts := TwoPartsOf(codec, framing, text, loud);
      if First(codec, framing, text, loud).Ok? {
        RecordsFirst(First(codec, framing, text, loud).value, Kept(Emit(codec, framing, After(text, loud))));
      }
    } else {
      var rest := NotSilentParts(codec, framing, After(text, loud));
      texts := PartsAfter(codec, framing, text, loud, rest);
      ThenNothing(RunTexts(codec, framing, "", rest));
    }
  }

  // ---- bytes ----

  /** What is recorded of a body that comes in chunks. */
  function Recorded(codec: Codec, framing: Framing, buffers: Buffers, chunks: seq<Bytes>): Record
  {
    var ran := FedAll(codec, framing, buffers, chunks);
    Record(ran.recorded, ran.error)
  }

  const EMPTY := Buffers([], "")

  /** Chunks after chunks. */
  lemma {:induction false} RecordedConcat(codec: Codec, framing: Framing, buffers: Buffers, a: seq<Bytes>, b: seq<Bytes>)
    ensures Recorded(codec, framing, buffers, a + b)
            == Then(Recorded(codec, framing, buffers, a), Recorded(codec, framing, FedAll(codec, framing, buffers, a).buffers, b))
    decreases |a|
  {
    hide Fed;
    if a == [] {
      assert a + b == b;
      ThenNothing(Recorded(codec, framing, buffers, b));
    } else {
      assert (a + b)[1..] == a[1..] + b;
      var first := Fed(codec, framing, buffers, a[0]);
      if first.Ok? {
        RecordedConcat(codec, framing, first.value.0, a[1..], b);
        var rest := FedAll(codec, framing, first.value.0, a[1..]);
        var last := FedAll(codec, framing, rest.buffers, b);
        assert first.value.1 + (rest.recorded + last.recorded) == first.value.1 + rest.recorded + last.recorded;
      }
    }
  }

  /** The texts that the chunks are decoded to. */
  function TextsOf(raw: Bytes, chunks: seq<Bytes>): seq<string>
    decreases |chunks|
  {
    if chunks == [] then []
    else
      var decoded := Decode(raw + chunks[0]);
      [decoded.text] + TextsOf(decoded.rest, chunks[1..])
  }

  lemma NotInvalidBefore(a: Bytes, b: Bytes)
    requires !Decode(a + b).invalid
    ensures !Decode(a).invalid
  {
    if Decode(a).invalid {
      InvalidStays(a, b);
    }
  }

  lemma {:induction false} TextsConcat(raw: Bytes, chunks: seq<Bytes>)
    requires !Decode(raw + Body(chunks)).invalid && Decode(raw) == Decoded("", raw, false)
    ensures Concat(TextsOf(raw, chunks)) == Decode(raw + Body(chunks)).text
    decreases |chunks|
  {
    hide Decode;
    if chunks == [] {
      assert raw + [] == raw;
    } else {
      var now, later := raw + chunks[0], Body(chunks[1..]);
      assert raw + (chunks[0] + later) == now + later;
      NotInvalidBefore(now, later);
      DecodeSplit(now, later);
      HeldBack(now);
      TextsConcat(Decode(now).rest, chunks[1..]);
      ConcatCons(Decode(now).text, TextsOf(Decode(now).rest, chunks[1..]));
    }
  }

  /** One chunk within the buffer limit. */
  lemma OneChunk(codec: Codec, framing: Framing, buffers: Buffers, chunk: Bytes)
    requires Held(buffers) + |chunk| <= MAX_BUFFER_BYTES && !Decode(buffers.raw + chunk).invalid
    ensures var decoded := Decode(buffers.raw + chunk);
            var pieces := Split(framing, buffers.text + decoded.text);
            var values := Values(codec, framing, pieces.complete);
            && Fed(codec, framing, buffers, chunk)
               == (if values.Err? then Err(values.error) else Ok((Buffers(decoded.rest, pieces.rest), values.value)))
            && Held(Buffers(decoded.rest, pieces.rest)) <= Held(buffers) + |chunk|
  {
    hide Values, Split, Decode, Encode;
    var decoded := Decode(buffers.raw + chunk);
    DecodeExact(buffers.raw + chunk);
    EncodeConcat(buffers.text, decoded.text);
    RestIsShorter(framing, buffers.text + decoded.text);
  }

  /** Below the buffer limit only the decoded texts matter, and the bytes held back at the end. */
  lemma {:induction false} RecordedByTexts(codec: Codec, framing: Framing, buffers: Buffers, chunks: seq<Bytes>)
    requires Held(buffers) + |Body(chunks)| <= MAX_BUFFER_BYTES && !Decode(buffers.raw + Body(chunks)).invalid
    requires Decode(buffers.raw) == Decoded("", buffers.raw, false)
    ensures Recorded(codec, framing, buffers, chunks) == RunTexts(codec, framing, buffers.text, TextsOf(buffers.raw, chunks))
    ensures var ran := FedAll(codec, framing, buffers, chunks);
            ran.error.None? ==>
              && ran.buffers.raw == Decode(buffers.raw + Body(chunks)).rest
              && Held(ran.buffers) <= Held(buffers) + |Body(chunks)|
              && (NextCut(framing, buffers.text).None? ==> NextCut(framing, ran.buffers.text).None?)
    decreases |chunks|
  {
    hide Values, Split, Decode, Fed, Held, NextCut;
    if chunks == [] {
      assert buffers.raw + [] == buffers.raw;
    } else {
      var chunk, later := chunks[0], Body(chunks[1..]);
      var now := buffers.raw + chunk;
      assert buffers.raw + (chunk + later) == now + later;
      NotInvalidBefore(now, later);
      OneChunk(codec, framing, buffers, chunk);
      DecodeSplit(now, later);
      HeldBack(now);
      var decoded := Decode(now);
      var pieces := Split(framing, buffers.text + decoded.text);
      SplitRest(framing, buffers.text + decoded.text);
      RecordedByTexts(codec, framing, Buffers(decoded.rest, pieces.rest), chunks[1..]);
      assert TextsOf(buffers.raw, chunks)[1..] == TextsOf(decoded.rest, chunks[1..]);
    }
  }

  /** Texts as chunks of their own. */
  function Encoded(texts: seq<string>): seq<Bytes>
  {
    if texts == [] then [] else [Encode(texts[0])] + Encoded(texts[1..])
  }

  lemma {:induction false} EncodedTexts(texts: seq<string>)
    ensures Body(Encoded(texts)) == Encode(Concat(texts)) && TextsOf([], Encoded(texts)) == texts
  {
    if texts != [] {
      EncodedTexts(texts[1..]);
      EncodeConcat(texts[0], Concat(texts[1..]));
      assert Encoded(texts)[1..] == Encoded(texts[1..]);
      WholeDecoded(texts[0]);
      assert [] + Encode(texts[0]) == Encode(texts[0]);
    }
  }

  lemma WholeDecoded(text: string)
    ensures Decode(Encode(text)) == Decoded(text, [], false)
  {
    DecodeEncoded(text, []);
    assert Encode(text) + [] == Encode(text) && text + "" == text;
  }

  lemma {:induction false} BodyConcat(a: seq<Bytes>, b: seq<Bytes>)
    ensures Body(a + b) == Body(a) + Body(b)
    decreases |a|
  {
    if a == [] {
      assert a + b == b && [] + Body(b) == Body(b);
    } else {
      BodyConcat(a[1..], b);
      assert (a + b)[1..] == a[1..] + b;
      assert a[0] + (Body(a[1..]) + Body(b)) == a[0] + Body(a[1..]) + Body(b);
    }
  }

  lemma BodyOne(chunk: Bytes)
    ensures Body([chunk]) == chunk
  {
    assert [chunk][1..] == [] && chunk + [] == chunk;
  }

  lemma Nothing()
    ensures Decode([]) == Decoded("", [], false) && Encode("") == [] && Held(EMPTY) == 0
    ensures NextCut(Ndjson, "").None? && NextCut(Sse, "").None?
  {
  }

  // ---- a body at once ----

  /** What is recorded of a body within the limit that arrives as one chunk. */
  lemma AtOnce(codec: Codec, framing: Framing, bytes: Bytes)
    requires |bytes| <= MAX_BUFFER_BYTES
    ensures var whole := Decode(bytes);
            Recorded(codec, framing, EMPTY, [bytes])
            == if whole.invalid then Record([], Some(InvalidUtf8)) else Kept(Emit(codec, framing, whole.text))
  {
    hide Fed, Decode, Values, Split, Recorded;
    RecordedOne(codec, framing, EMPTY, bytes);
    assert [] + bytes == bytes && "" + Decode(bytes).text == Decode(bytes).text;
    Nothing();
    if Decode(bytes).invalid {
      InvalidChunk(codec, framing, EMPTY, bytes);
    } else {
      OneChunk(codec, framing, EMPTY, bytes);
    }
  }

  lemma RecordedOne(codec: Codec, framing: Framing, buffers: Buffers, chunk: Bytes)
    ensures var fed := Fed(codec, framing, buffers, chunk);
            Recorded(codec, framing, buffers, [chunk]) == if fed.Ok? then Record(fed.value.1, None) else Record([], Some(fed.error))
  {
    hide Fed;
    var one := [chunk];
    var rest := one[1..];
    assert rest == [];
    var fed := Fed(codec, framing, buffers, chunk);
    if fed.Ok? {
      assert FedAll(codec, framing, fed.value.0, rest) == Ran(fed.value.0, [], None);
      assert FedAll(codec, framing, buffers, one).recorded == fed.value.1 + [];
      assert fed.value.1 + [] == fed.value.1;
    }
  }

  lemma InvalidChunk(codec: Codec, framing: Framing, buffers: Buffers, chunk: Bytes)
    requires |buffers.raw| + |chunk| <= MAX_BUFFER_BYTES && Decode(buffers.raw + chunk).invalid
    ensures Fed(codec, framing, buffers, chunk) == Err(InvalidUtf8)
  {
    hide Decode, Values, Split;
  }

  /** Of an invalid body whose text is silent nothing is recorded but the error. */
  lemma {:induction false} SilentInvalid(codec: Codec, framing: Framing, buffers: Buffers, chunks: seq<Bytes>)
    requires Held(buffers) + |Body(chunks)| <= MAX_BUFFER_BYTES
    requires Decode(buffers.raw) == Decoded("", buffers.raw, false) && Decode(buffers.raw + Body(chunks)).invalid
    requires Silent(codec, framing, buffers.text + Decode(buffers.raw + Body(chunks)).text)
    ensures Recorded(codec, framing, buffers, chunks) == Record([], Some(InvalidUtf8))
    decreases |chunks|
  {
    hide Values, Split, Decode, Fed, Silent, Encode;
    assert buffers.raw + [] == buffers.raw;
    if chunks != [] {
      var chunk, later := chunks[0], Body(chunks[1..]);
      var now := buffers.raw + chunk;
      assert buffers.raw + (chunk + later) == now + later;
      if Decode(now).invalid {
        InvalidChunk(codec, framing, buffers, chunk);
      } else {
        OneChunk(codec, framing, buffers, chunk);
        DecodeSplit(now, later);
        HeldBack(now);
        var decoded, second := Decode(now), Decode(Decode(now).rest + later);
        var text := buffers.text + decoded.text;
        assert buffers.text + (decoded.text + second.text) == text + second.text;
        PartSilent(codec, framing, text, second.text);
        SilentInvalid(codec, framing, Buffers(decoded.rest, Split(framing, text).rest), chunks[1..]);
      }
    }
  }

  // ---- every division into chunks ----

  /** For a body that is UTF-8, but for an unfinished character at its end, either no piece is in
      error and the text is indifferent, or the text is barren; an invalid one is silent up to there. */
  predicate ChunksNeverMatter(codec: Codec, framing: Framing, bytes: Bytes)
  {
    var whole := Decode(bytes);
    if whole.invalid then Silent(codec, framing, whole.text)
    else if Emit(codec, framing, whole.text).Ok? then Indifferent(codec, framing, whole.text)
    else Barren(codec, framing, whole.text)
  }

  lemma ChunksRecordedAlike(codec: Codec, framing: Framing, bytes: Bytes, chunks: seq<Bytes>)
    requires |bytes| <= MAX_BUFFER_BYTES && Body(chunks) == bytes && ChunksNeverMatter(codec, framing, bytes)
    ensures Recorded(codec, framing, EMPTY, chunks) == Recorded(codec, framing, EMPTY, [bytes])
  {
    hide Recorded, Decode, Silent, Indifferent, Barren, Emit, RunTexts, Held, NextCut;
    AtOnce(codec, framing, bytes);
    Nothing();
    var whole := Decode(bytes);
    assert [] + Body(chunks) == bytes && "" + whole.text == whole.text;
    if whole.invalid {
      SilentInvalid(codec, framing, EMPTY, chunks);
    } else {
      RecordedByTexts(codec, framing, EMPTY, chunks);
      TextsConcat([], chunks);
      if Emit(codec, framing, whole.text).Ok? {
        IndifferentParts(codec, framing, "", TextsOf([], chunks));
      } else {
        BarrenParts(codec, framing, "", TextsOf([], chunks));
        OnlyInvalidJson(codec, framing, Split(framing, whole.text).complete);
        assert Emit(codec, framing, whole.text) == Err(InvalidJson) by { EmitError(codec, framing, whole.text); }
      }
    }
  }

  lemma EmitError(codec: Codec, framing: Framing, text: string)
    ensures Emit(codec, framing, text).Err? ==> Emit(codec, framing, text) == Err(InvalidJson)
  {
    hide Values, Split;
    OnlyInvalidJson(codec, framing, Split(framing, text).complete);
  }

  /** The chunks of some texts, and what is left of a body after them: held back or invalid. */
  lemma ChunksOf(codec: Codec, framing: Framing, bytes: Bytes, texts: seq<string>) returns (chunks: seq<Bytes>)
    requires |bytes| <= MAX_BUFFER_BYTES && Concat(texts) == Decode(bytes).text
    ensures Body(chunks) == bytes
    ensures Recorded(codec, framing, EMPTY, chunks)
            == Then(RunTexts(codec, framing, "", texts), if Decode(bytes).invalid then Record([], Some(InvalidUtf8)) else Record([], None))
  {
    hide Recorded, Decode, RunTexts, Held, Encode;
    var whole, front := Decode(bytes), Encoded(texts);
    DecodeExact(bytes);
    EncodedTexts(texts);
    BodyOne(whole.rest);
    BodyConcat(front, [whole.rest]);
    chunks := front + [whole.rest];
    Nothing();
    WholeDecoded(whole.text);
    assert [] + Body(front) == Body(front);
    RecordedByTexts(codec, framing, EMPTY, front);
    RecordedConcat(codec, framing, EMPTY, front, [whole.rest]);
    HeldBack(bytes);
    var ran := FedAll(codec, framing, EMPTY, front);
    if ran.error.None? {
      LastBytes(codec, framing, ran.buffers, whole.rest);
    }
    SameRun(codec, framing, front);
  }

  lemma SameRun(codec: Codec, framing: Framing, chunks: seq<Bytes>)
    ensures Recorded(codec, framing, EMPTY, chunks).error == FedAll(codec, framing, EMPTY, chunks).error
  {
  }

  /** Bytes that decode to no text: they are held back, or they are the error. */
  lemma LastBytes(codec: Codec, framing: Framing, buffers: Buffers, rest: Bytes)
    requires buffers.raw == [] && NextCut(framing, buffers.text).None? && Held(buffers) + |rest| <= MAX_BUFFER_BYTES
    requires Decode(rest).text == ""
    ensures Recorded(codec, framing, buffers, [rest])
            == if Decode(rest).invalid then Record([], Some(InvalidUtf8)) else Record([], None)
  {
    hide Decode, Fed, Values, Split, Recorded, Encode, NextCut;
    RecordedOne(codec, framing, buffers, rest);
    assert [] + rest == rest && buffers.text + "" == buffers.text;
    if Decode(rest).invalid {
      InvalidChunk(codec, framing, buffers, rest);
    } else {
      OneChunk(codec, framing, buffers, rest);
      SplitNone(framing, buffers.text);
      NoValues(codec, framing);
    }
  }

  /** Of a body of at most 1 MiB, every division into chunks records the same values and the same error
      as the whole at once, if and only if chunks never matter for it in the sense above. */
  lemma ChunksNeverMatterIff(codec: Codec, framing: Framing, bytes: Bytes)
    requires |bytes| <= MAX_BUFFER_BYTES
    ensures ChunksNeverMatter(codec, framing, bytes) <==>
            forall chunks :: Body(chunks) == bytes ==>
              Recorded(codec, framing, EMPTY, chunks) == Recorded(codec, framing, EMPTY, [bytes])
  {
    hide Recorded, ChunksNeverMatter;
    if ChunksNeverMatter(codec, framing, bytes) {
      forall chunks | Body(chunks) == bytes
        ensures Recorded(codec, framing, EMPTY, chunks) == Recorded(codec, framing, EMPTY, [bytes])
      {
        ChunksRecordedAlike(codec, framing, bytes, chunks);
      }
    } else {
      var chunks := TellingChunks(codec, framing, bytes);
      assert Body(chunks) == bytes && Recorded(codec, framing, EMPTY, chunks) != Recorded(codec, framing, EMPTY, [bytes]);
    }
  }

  lemma TellingChunks(codec: Codec, framing: Framing, bytes: Bytes) returns (chunks: seq<Bytes>)
    requires |bytes| <= MAX_BUFFER_BYTES && !ChunksNeverMatter(codec, framing, bytes)
    ensures Body(chunks) == bytes && Recorded(codec, framing, EMPTY, chunks) != Recorded(codec, framing, EMPTY, [bytes])
  {
    hide Recorded, Decode, Silent, Indifferent, Barren, Emit, RunTexts, Concat;
    AtOnce(codec, framing, bytes);
    var whole := Decode(bytes);
    EmitError(codec, framing, whole.text);
    var texts: seq<string>;
    if whole.invalid {
      texts := NotSilentParts(codec, framing, whole.text);
    } else if Emit(codec, framing, whole.text).Ok? {
      texts := TellingParts(codec, framing, whole.text);
    } else {
      texts := NotBarrenParts(codec, framing, whole.text);
    }
    chunks := ChunksOf(codec, framing, bytes, texts);
    ThenNothing(RunTexts(codec, framing, "", texts));
    OnlyJsonErrors(codec, framing, "", texts);
  }

  lemma {:induction false} OnlyJsonErrors(codec: Codec, framing: Framing, buffer: string, texts: seq<string>)
    ensures RunTexts(codec, framing, buffer, texts).error != Some(InvalidUtf8)
    decreases |texts|
  {
    hide Split, Values;
    if texts != [] {
      var pieces := Split(framing, buffer + texts[0]);
      OnlyInvalidJson(codec, framing, pieces.complete);
      OnlyJsonErrors(codec, framing, pieces.rest, texts[1..]);
    }
  }

  // ---- an error and the chunk it stands in ----

  /** The NDJSON body "1" LF "x" LF: at once nothing is recorded, in two chunks the first value is. */
  lemma ErrorTakesBackItsChunk(codec: Codec, v: Value)
    requires codec.parse("1") == Some(v) && codec.parse("x").None?
    ensures var a, b := Encode("1\n"), Encode("x\n");
            && Recorded(codec, Ndjson, EMPTY, [a + b]) == Record([], Some(InvalidJson))
            && Recorded(codec, Ndjson, EMPTY, [a, b]) == Record([v], Some(InvalidJson))
  {
    hide Recorded, Encode, Decode, FirstValues, NextCut, Split, Values, RunTexts, TextsOf, Body;
    var a, b, text := Encode("1\n"), Encode("x\n"), "1\nx\n";
    var one, two := Cut(1, 1), Cut(1, 1);
    LineCut("1", "x\n");
    LineCut("1", "");
    LineCut("x", "");
    assert "1" + "\n" + "x\n" == text && "1" + "\n" + "" == "1\n" && "x" + "\n" + "" == "x\n";
    assert text[..1] == "1" && text[..2] == "1\n" && text[2..] == "x\n" && "x\n"[..1] == "x" && "x\n"[2..] == "";
    LineValues(codec, v);
    EmitIs(codec, Ndjson, text);
    EmitIs(codec, Ndjson, "x\n");
    EncodeConcat("1\n", "x\n");
    assert "1\n" + "x\n" == text;
    WholeDecoded(text);
    ShortBody();
    AtOnce(codec, Ndjson, a + b);
    TwoParts(codec, Ndjson, text, one);
    TwoChunks(codec, "1\n", "x\n");
  }

  lemma ShortBody()
    ensures |Encode("1\n") + Encode("x\n")| <= MAX_BUFFER_BYTES
  {
    assert |Encode("1\n")| == 2 && |Encode("x\n")| == 2;
  }

  lemma TwoChunks(codec: Codec, a: string, b: string)
    requires |Encode(a) + Encode(b)| <= MAX_BUFFER_BYTES
    ensures Recorded(codec, Ndjson, EMPTY, [Encode(a), Encode(b)]) == RunTexts(codec, Ndjson, "", [a, b])
  {
    hide Recorded, Encode, Decode, RunTexts, Held;
    var texts := [a, b];
    EncodedTexts(texts);
    assert texts[1..] == [b] && [b][1..] == [];
    assert Encoded([b]) == [Encode(b)] + Encoded([]);
    assert Encoded(texts) == [Encode(a), Encode(b)];
    BodyOne(Encode(b));
    assert [Encode(a), Encode(b)][1..] == [Encode(b)];
    Nothing();
    var body := Body([Encode(a), Encode(b)]);
    WholeDecoded(Concat(texts));
    assert [] + body == body;
    RecordedByTexts(codec, Ndjson, EMPTY, [Encode(a), Encode(b)]);
  }

  lemma LineCut(line: string, rest: string)
    requires '\n' !in line
    ensures NextCut(Ndjson, line + "\n" + rest) == Some(Cut(|line|, 1))
  {
    FirstAt(line + "\n" + rest, "\n", |line|);
  }

  lemma LineValues(codec: Codec, v: Value)
    requires codec.parse("1") == Some(v) && codec.parse("x").None?
    ensures FirstValues(codec, Ndjson, "1") == Ok([v]) && FirstValues(codec, Ndjson, "x") == Err(InvalidJson)
  {
    assert Text.Trim("1") == "1" && Text.Trim("x") == "x";
    assert Text.TrimEndMatches("1", {'\r'}) == "1" && Text.TrimEndMatches("x", {'\r'}) == "x";
  }
}
