/** When a stream run meets no error (src/daemon.rs). */
module StreamAcceptance {
  import opened Wrappers
  import opened Json
  import opened Utf8
  import opened Streams

  // Of an NDJSON body, or a uniform SSE body, this is a matter of the body and of the buffer limit
  // alone: each chunk and each unfinished piece has to stay within the limit. Within it, chunks do
  // not matter.

  // ---- invalid bytes stay invalid ----

  lemma {:induction false} InvalidStays(a: Bytes, b: Bytes)
    requires Decode(a).invalid
    ensures Decode(a + b).invalid
    decreases |a|
  {
    hide DecodeFirst;
    DecodeFirstExtends(a, b);
    if DecodeFirst(a).Char? {
      DecodeFirstSound(a);
      var width := DecodeFirst(a).width;
      InvalidStays(a[width..], b);
      assert (a + b)[width..] == a[width..] + b;
      DecodeFirstSound(a + b);
    }
  }

  // ---- sizes ----

  lemma {:induction false} EncodeConcat(a: string, b: string)
    ensures Encode(a + b) == Encode(a) + Encode(b)
  {
    hide EncodeChar;
    if a == "" {
      assert a + b == b && [] + Encode(b) == Encode(b);
    } else {
      EncodeConcat(a[1..], b);
      EncodeCons(a[0], a[1..] + b);
      assert [a[0]] + (a[1..] + b) == a + b;
      Grouped(EncodeChar(a[0]), Encode(a[1..]), Encode(b));
    }
  }

  lemma Grouped(a: Bytes, b: Bytes, c: Bytes)
    ensures a + (b + c) == a + b + c
  {
  }

  lemma {:induction false} RestIsShorter(framing: Framing, text: string)
    ensures |Encode(Split(framing, text).rest)| <= |Encode(text)|
    decreases |text|
  {
    hide NextCut, Encode;
    var cut := NextCut(framing, text);
    if cut.Some? {
      var k := cut.value.pos + cut.value.width;
      RestIsShorter(framing, text[k..]);
      EncodeConcat(text[..k], text[k..]);
      assert text[..k] + text[k..] == text;
    }
  }

  /** Bytes and text that the buffers hold. */
  function Held(buffers: Buffers): nat
  {
    |buffers.raw| + |Encode(buffers.text)|
  }

  // ---- bodies of any size ----

  /** What the buffers hold once some bytes of a body have been taken in. */
  function HeldAfter(framing: Framing, bytes: Bytes): Buffers
  {
    Buffers(Decode(bytes).rest, Split(framing, Decode(bytes).text).rest)
  }

  /** Each chunk with the bytes held back before it, and each unfinished piece after it, stay within
      the limit; `before` are the bytes already taken in. */
  predicate WithinLimits(framing: Framing, before: Bytes, chunks: seq<Bytes>)
    decreases |chunks|
  {
    chunks != [] ==>
      && |Decode(before).rest| + |chunks[0]| <= MAX_BUFFER_BYTES
      && |Encode(HeldAfter(framing, before + chunks[0]).text)| <= MAX_BUFFER_BYTES
      && WithinLimits(framing, before + chunks[0], chunks[1..])
  }

  /** UTF-8 but for an unfinished character at the end, uniform, and all complete pieces JSON. */
  ghost predicate Faultless(codec: Codec, framing: Framing, body: Bytes)
  {
    var whole := Decode(body);
    && !whole.invalid
    && Uniform(framing, whole.text)
    && Values(codec, framing, Split(framing, whole.text).complete).Ok?
  }

  lemma {:induction false} UniformPrefix(framing: Framing, a: string, b: string)
    requires Uniform(framing, a + b)
    ensures Uniform(framing, a)
    decreases |a|
  {
    hide NextCut, MixedEndings;
    MixedPrefix(a, b);
    CutInPrefixOfUniform(framing, a, b);
    var cut := NextCut(framing, a);
    if cut.Some? {
      var k := cut.value.pos + cut.value.width;
      assert (a + b)[k..] == a[k..] + b;
      UniformPrefix(framing, a[k..], b);
    }
  }

  lemma MixedPrefix(a: string, b: string)
    ensures MixedEndings(a) ==> MixedEndings(a + b)
  {
    hide Text.Find;
    Text.FindInPrefix(a, b, "\r\n\r\n");
    Text.FindInPrefix(a, b, "\n\n");
  }

  /** The first bytes of a faultless body are faultless. */
  lemma FaultlessPrefix(codec: Codec, framing: Framing, a: Bytes, b: Bytes)
    requires Faultless(codec, framing, a + b)
    ensures Faultless(codec, framing, a)
  {
    hide Values, Split, Uniform, Decode;
    if Decode(a).invalid {
      InvalidStays(a, b);
    } else {
      DecodeSplit(a, b);
      var text, more := Decode(a).text, Decode(Decode(a).rest + b).text;
      UniformPrefix(framing, text, more);
      SplitInTwo(framing, text, more);
      ValuesConcat(codec, framing, Split(framing, text).complete, Split(framing, Split(framing, text).rest + more).complete);
    }
  }

  /** One chunk more of a faultless body. */
  lemma FaultlessChunk(codec: Codec, framing: Framing, before: Bytes, chunk: Bytes)
    requires Faultless(codec, framing, before + chunk)
    ensures var fed, after := Fed(codec, framing, HeldAfter(framing, before), chunk), HeldAfter(framing, before + chunk);
            if |Decode(before).rest| + |chunk| <= MAX_BUFFER_BYTES && |Encode(after.text)| <= MAX_BUFFER_BYTES
            then fed.Ok? && fed.value.0 == after else fed == Err(BufferExceeded)
  {
    hide Values, Split, Uniform, Decode, Encode;
    FaultlessPrefix(codec, framing, before, chunk);
    DecodeSplit(before, chunk);
    var text, more := Decode(before).text, Decode(Decode(before).rest + chunk).text;
    SplitInTwo(framing, text, more);
    ValuesConcat(codec, framing, Split(framing, text).complete, Split(framing, Split(framing, text).rest + more).complete);
  }

  lemma {:induction false} FaultlessRun(codec: Codec, framing: Framing, before: Bytes, chunks: seq<Bytes>)
    requires Faultless(codec, framing, before + Body(chunks))
    ensures FedAll(codec, framing, HeldAfter(framing, before), chunks).error
            == if WithinLimits(framing, before, chunks) then None else Some(BufferExceeded)
    decreases |chunks|
  {
    hide Faultless, Fed, HeldAfter, Decode, Encode;
    if chunks != [] {
      var now, later := before + chunks[0], Body(chunks[1..]);
      assert before + (chunks[0] + later) == now + later;
      FaultlessPrefix(codec, framing, now, later);
      FaultlessChunk(codec, framing, before, chunks[0]);
      FaultlessRun(codec, framing, now, chunks[1..]);
    }
  }

  /** Of a body of any size, uniform if it is SSE, a division into chunks runs without an error if and
      only if the body is faultless and the division stays within the limits. A faultless body is
      refused for nothing else. */
  lemma RunAcceptedIff(codec: Codec, framing: Framing, chunks: seq<Bytes>)
    requires framing.Sse? ==> Uniform(Sse, Decode(Body(chunks)).text)
    ensures var error := FedAll(codec, framing, Buffers([], ""), chunks).error;
            && (error.None? <==> Faultless(codec, framing, Body(chunks)) && WithinLimits(framing, [], chunks))
            && (Faultless(codec, framing, Body(chunks)) && !WithinLimits(framing, [], chunks) ==> error == Some(BufferExceeded))
  {
    hide Values, Split, Uniform, Decode, FedAll, WithinLimits;
    if framing.Ndjson? {
      NdjsonUniform(Decode(Body(chunks)).text);
    }
    NothingTaken(framing);
    assert [] + Body(chunks) == Body(chunks);
    if Faultless(codec, framing, Body(chunks)) {
      FaultlessRun(codec, framing, [], chunks);
    }
    if FedAll(codec, framing, Buffers([], ""), chunks).error.None? {
      ChunkingIrrelevant(codec, framing, chunks);
      SettledStart(framing);
      assert "" + Decode(Body(chunks)).text == Decode(Body(chunks)).text;
      ChunkingFrom(codec, framing, Buffers([], ""), chunks);
    }
  }

  lemma NothingTaken(framing: Framing)
    ensures HeldAfter(framing, []) == Buffers([], "")
  {
  }

  lemma SettledStart(framing: Framing)
    ensures Settled(framing, Buffers([], ""))
  {
  }

  // ---- small bodies ----

  lemma {:induction false} SmallWithinLimits(framing: Framing, before: Bytes, chunks: seq<Bytes>)
    requires |before| + |Body(chunks)| <= MAX_BUFFER_BYTES
    ensures WithinLimits(framing, before, chunks)
    decreases |chunks|
  {
    hide Decode, Encode, Split;
    if chunks != [] {
      var now := before + chunks[0];
      DecodeExact(before);
      DecodeExact(now);
      RestIsShorter(framing, Decode(now).text);
      SmallWithinLimits(framing, now, chunks[1..]);
    }
  }

  /** A body of at most 1 MiB, uniform if it is SSE, runs without an error if and only if it is
      UTF-8, but for an unfinished character at its end, and all its complete pieces are JSON. */
  lemma AcceptedIff(codec: Codec, framing: Framing, chunks: seq<Bytes>)
    requires |Body(chunks)| <= MAX_BUFFER_BYTES
    requires framing.Sse? ==> Uniform(Sse, Decode(Body(chunks)).text)
    ensures var whole := Decode(Body(chunks));
            FedAll(codec, framing, Buffers([], ""), chunks).error.None? <==>
            !whole.invalid && Values(codec, framing, Split(framing, whole.text).complete).Ok?
  {
    hide Values, Split, Uniform, Decode, FedAll, WithinLimits;
    if framing.Ndjson? {
      NdjsonUniform(Decode(Body(chunks)).text);
    }
    RunAcceptedIff(codec, framing, chunks);
    SmallWithinLimits(framing, [], chunks);
  }
}
