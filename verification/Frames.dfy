/** Framing on the daemon's socket (src/daemon.rs). */
module Frames {
  import opened Wrappers
  import opened Utf8
  import Text

  // A frame is a Content-Length header, a blank line, and a JSON body. The daemon's reader limits header
  // and body; the blocking one does not.

  const MAX_FRAME_BODY_BYTES: nat := 8 * 1024 * 1024

  const MAX_HEADER_BYTES: nat := 8192

  datatype FrameError =
    | EndOfInput | HeaderTooLarge | HeaderNotUtf8 | BadLength | MissingLength | BodyTooLarge | BadJson

  /** serde_json's writer and reader. */
  datatype BodyCodec<!V> = BodyCodec(render: V -> Bytes, parse: Bytes -> Option<V>)

  predicate ReadsBack<V(==)>(codec: BodyCodec<V>, v: V)
  {
    codec.parse(codec.render(v)) == Some(v)
  }

  // ---- what a frame is ----

  function HeaderText(length: nat): string
  {
    "Content-Length: " + Text.ShowNat(length) + "\r\n\r\n"
  }

  function Frame(body: Bytes): Bytes
  {
    Encode(HeaderText(|body|)) + body
  }

  // ---- what a reader makes of its input ----

  const BLANK_LINE: Bytes := [13, 10, 13, 10]

  /** Where the header ends. A limited reader gives up one byte past the limit. */
  function HeaderEnd(input: Bytes, limited: bool): (r: Result<nat, FrameError>)
    ensures r.Ok? ==> r.value <= |input|
  {
    var found := Text.Find(input, BLANK_LINE);
    if found.Some? && (limited ==> found.value + 4 <= MAX_HEADER_BYTES + 1) then Ok(found.value + 4)
    else if limited && |input| > MAX_HEADER_BYTES then Err(HeaderTooLarge)
    else Err(EndOfInput)
  }

  const FIELD := "Content-Length:"

  function LengthField(line: string): Option<nat>
  {
    if Text.StartsWith(line, FIELD) then Text.ParseUsize(Text.Trim(line[|FIELD|..])) else None
  }

  /** The last Content-Length counts, and every one must be a number. */
  function LengthFrom(lines: seq<string>, known: Option<nat>): (r: Result<nat, FrameError>)
    ensures r.Err? ==> r.error.BadLength? || r.error.MissingLength?
    decreases |lines|
  {
    if lines == [] then if known.Some? then Ok(known.value) else Err(MissingLength)
    else
      var line := Text.Trim(lines[0]);
      if Text.StartsWith(line, FIELD) then
        var length := LengthField(line);
        if length.Some? then LengthFrom(lines[1..], length) else Err(BadLength)
      else LengthFrom(lines[1..], known)
  }

  function LengthIn(header: Bytes): (r: Result<nat, FrameError>)
    ensures r.Err? ==> r.error.HeaderNotUtf8? || r.error.BadLength? || r.error.MissingLength?
  {
    var decoded := Decode(header);
    if decoded.rest != [] then Err(HeaderNotUtf8) else LengthFrom(Text.SplitOn(decoded.text, "\r\n"), None)
  }

  datatype Taken = Taken(body: Bytes, rest: Bytes)

  /** The body of the first frame and what follows it. */
  function Take(input: Bytes, limited: bool): Result<Taken, FrameError>
  {
    var end := HeaderEnd(input, limited);
    if end.Err? then Err(end.error)
    else
      var length := LengthIn(input[..end.value]);
      if length.Err? then Err(length.error)
      else if limited && length.value > MAX_FRAME_BODY_BYTES then Err(BodyTooLarge)
      else if end.value + length.value > |input| then Err(EndOfInput)
      else Ok(Taken(input[end.value..end.value + length.value], input[end.value + length.value..]))
  }

  /** What is left of the input when the read is over, however it ends: a refused header or body is
      not read any further, an input that ends early has been read to its end. */
  function Left(input: Bytes, limited: bool): Bytes
  {
    var end := HeaderEnd(input, limited);
    if end.Err? then if end.error.HeaderTooLarge? && |input| > MAX_HEADER_BYTES then input[MAX_HEADER_BYTES + 1..] else []
    else
      var taken := Take(input, limited);
      if taken.Ok? then taken.value.rest
      else if taken.error.EndOfInput? then []
      else input[end.value..]
  }

  /** The result of reading one value. */
  function ValueOf<V>(codec: BodyCodec<V>, taken: Result<Taken, FrameError>): Result<V, FrameError>
  {
    if taken.Err? then Err(taken.error)
    else
      var value := codec.parse(taken.value.body);
      if value.Some? then Ok(value.value) else Err(BadJson)
  }

  // ---- the stream ----

  class UnixStream<V> {
    const codec: BodyCodec<V>
    /** What is still to be read, and what has been written. */
    var input: Bytes
    var output: Bytes

    constructor (codec: BodyCodec<V>, input: Bytes)
      ensures this.codec == codec && this.input == input && output == []
    {
      this.codec, this.input, output := codec, input, [];
    }

    method WriteFrame(value: V)
      modifies this`output
      ensures output == old(output) + Frame(codec.render(value))
    {
      var body := codec.render(value);
      var header := HeaderText(|body|);
      output := output + Encode(header);
      output := output + body;
    }

    /** A byte at a time until the blank line. */
    method ReadHeader(limited: bool) returns (header: Result<Bytes, FrameError>)
      modifies this`input
      ensures var end := HeaderEnd(old(input), limited);
              if end.Err? then header == Err(end.error) && input == Left(old(input), limited)
              else header == Ok(old(input)[..end.value]) && input == old(input)[end.value..]
    {
      hide Take, Text.Find;
      ghost var all := input;
      var read := [];
      while true
        invariant |read| <= |all| && read == all[..|read|] && input == all[|read|..]
        invariant forall i :: 0 <= i && i + 4 <= |read| ==> !Text.OccursAt(all, BLANK_LINE, i)
        invariant limited ==> |read| <= MAX_HEADER_BYTES
        decreases |input|
      {
        if input == [] {
          return Err(EndOfInput);
        }
        read, input := read + [input[0]], input[1..];
        assert read == all[..|read|];
        if |read| >= 4 && read[|read| - 4..] == BLANK_LINE {
          assert Text.OccursAt(all, BLANK_LINE, |read| - 4);
          Text.FindIs(all, BLANK_LINE, |read| - 4);
          return Ok(read);
        }
        if limited && |read| > MAX_HEADER_BYTES {
          return Err(HeaderTooLarge);
        }
      }
    }

    /** The daemon's reader skips blank lines, the client's does not. */
    method ContentLength(header: Bytes, skipsBlank: bool) returns (length: Result<nat, FrameError>)
      ensures length == LengthIn(header)
    {
      hide Text.Trim, Text.StartsWith, Text.ParseUsize, Decode, Text.SplitOn;
      var decoded := Decode(header);
      if decoded.rest != [] {
        return Err(HeaderNotUtf8);
      }
      var lines := Text.SplitOn(decoded.text, "\r\n");
      var known: Option<nat> := None;
      for i := 0 to |lines|
        invariant LengthFrom(lines, None) == LengthFrom(lines[i..], known)
      {
        var line := Text.Trim(lines[i]);
        assert lines[i..][1..] == lines[i + 1..];
        if skipsBlank && line == "" {
          BlankHasNoField(line);
          continue;
        }
        if Text.StartsWith(line, FIELD) {
          known := LengthField(line);
          if known.None? {
            return Err(BadLength);
          }
        }
      }
      length := if known.Some? then Ok(known.value) else Err(MissingLength);
    }

    method ReadBody(length: nat) returns (value: Result<V, FrameError>)
      modifies this`input
      ensures if length > |old(input)| then value == Err(EndOfInput) && input == []
              else value == ValueOf(codec, Ok(Taken(old(input)[..length], []))) && input == old(input)[length..]
    {
      if length > |input| {
        input := [];
        return Err(EndOfInput);
      }
      var body := input[..length];
      input := input[length..];
      var parsed := codec.parse(body);
      value := if parsed.Some? then Ok(parsed.value) else Err(BadJson);
    }

    /** The daemon's reader. */
    method ReadFrame() returns (value: Result<V, FrameError>)
      modifies this`input
      ensures var taken := Take(old(input), true);
              value == ValueOf(codec, taken) && input == Left(old(input), true)
    {
      hide HeaderEnd, LengthIn;
      var header := ReadHeader(true);
      if header.Err? {
        return Err(header.error);
      }
      var length := ContentLength(header.value, true);
      if length.Err? {
        return Err(length.error);
      }
      if length.value > MAX_FRAME_BODY_BYTES {
        return Err(BodyTooLarge);
      }
      ghost var all, end := old(input), |header.value|;
      BodyAt(all, end, length.value);
      value := ReadBody(length.value);
    }

    /** The client's reader has no limits. */
    method ReadFrameBlocking() returns (value: Result<V, FrameError>)
      modifies this`input
      ensures var taken := Take(old(input), false);
              value == ValueOf(codec, taken) && input == Left(old(input), false)
    {
      hide HeaderEnd, LengthIn;
      var header := ReadHeader(false);
      if header.Err? {
        return Err(header.error);
      }
      var length := ContentLength(header.value, false);
      if length.Err? {
        return Err(length.error);
      }
      ghost var all, end := old(input), |header.value|;
      BodyAt(all, end, length.value);
      value := ReadBody(length.value);
    }
  }

  lemma BodyAt(all: Bytes, end: nat, length: nat)
    requires end <= |all|
    ensures end + length <= |all| ==>
              all[end..][..length] == all[end..end + length] && all[end..][length..] == all[end + length..]
  {
  }

  lemma BlankHasNoField(line: string)
    ensures line == "" ==> !Text.StartsWith(line, FIELD)
  {
  }

  // ---- the two readers agree ----

  /** On any input at all, the limits are the only difference. */
  lemma ReadersAgree(input: Bytes)
    ensures Take(input, true) == Take(input, false)
            || Take(input, true) == Err(HeaderTooLarge) || Take(input, true) == Err(BodyTooLarge)
  {
    hide HeaderEnd, LengthIn;
    EndsAgree(input);
  }

  lemma EndsAgree(input: Bytes)
    ensures HeaderEnd(input, true) == HeaderEnd(input, false) || HeaderEnd(input, true) == Err(HeaderTooLarge)
    ensures HeaderEnd(input, true).Ok? ==> 0 < HeaderEnd(input, true).value <= |input|
    ensures HeaderEnd(input, false).Ok? ==> 0 < HeaderEnd(input, false).value <= |input|
  {
    hide Text.Find;
  }

  // ---- a frame is read back ----

  predicate Ascii(text: string)
  {
    forall i :: 0 <= i < |text| ==> (text[i] as int) < 0x80
  }

  lemma {:induction false} EncodeAscii(text: string)
    requires Ascii(text)
    ensures |Encode(text)| == |text|
    ensures forall i :: 0 <= i < |text| ==> Encode(text)[i] as int == text[i] as int
  {
    if text != "" {
      EncodeAscii(text[1..]);
      assert EncodeChar(text[0]) == [text[0] as int as byte];
    }
  }

  /** The header line without its ending. */
  function LengthLine(length: nat): string
  {
    "Content-Length: " + Text.ShowNat(length)
  }

  lemma PlainLengthLine(length: nat)
    ensures Ascii(HeaderText(length)) && HeaderText(length) == LengthLine(length) + "\r\n\r\n"
    ensures '\r' !in LengthLine(length)
    ensures Text.Trim(LengthLine(length)) == LengthLine(length)
  {
    var digits := Text.ShowNat(length);
    assert Text.IsDigit(digits[|digits| - 1]);
    assert LengthLine(length)[0] == 'C' && LengthLine(length)[|LengthLine(length)| - 1] == digits[|digits| - 1];
  }

  /** In a frame the header ends where it was written to end. */
  lemma HeaderOfFrame(length: nat, rest: Bytes)
    ensures var header := Encode(HeaderText(length));
            Text.Find(header + rest, BLANK_LINE) == Some(|header| - 4)
            && |header| == |HeaderText(length)|
  {
    var text, line := HeaderText(length), LengthLine(length);
    var header := Encode(text);
    PlainLengthLine(length);
    EncodeAscii(text);
    var all, end := header + rest, |line|;
    assert text[end..] == "\r\n\r\n";
    assert all[end..end + 4] == BLANK_LINE by {
      assert forall k :: end <= k < end + 4 ==> all[k] as int == text[k] as int;
      assert text[end] == '\r' && text[end + 1] == '\n' && text[end + 2] == '\r' && text[end + 3] == '\n';
    }
    forall i | 0 <= i < end ensures !Text.OccursAt(all, BLANK_LINE, i) {
      assert text[i] == line[i] && all[i] as int == text[i] as int;
      assert i + 4 <= |all| ==> all[i..i + 4][0] == all[i];
    }
    Text.FindIs(all, BLANK_LINE, end);
  }

  lemma LengthOfFrame(length: nat)
    requires length < Text.USIZE_LIMIT
    ensures LengthIn(Encode(HeaderText(length))) == Ok(length)
  {
    var text := HeaderText(length);
    DecodeEncoded(text, []);
    assert Encode(text) + [] == Encode(text) && Decode([]) == Decoded("", [], false);
    assert text + "" == text;
    SplitHeader(length);
    LengthLineRead(length);
  }

  lemma SplitHeader(length: nat)
    ensures Text.SplitOn(HeaderText(length), "\r\n") == [LengthLine(length), "", ""]
  {
    hide Text.SplitOn, Text.Find, Text.ShowNat;
    PlainLengthLine(length);
    var line := LengthLine(length);
    CrlfFirst(line, "\r\n");
    CrlfFirst("", "");
    assert "" + "\r\n" + "" == "\r\n";
    assert line + "\r\n" + "\r\n" == HeaderText(length);
    SplitEmpty();
  }

  lemma SplitEmpty()
    ensures Text.SplitOn("", "\r\n") == [""]
  {
  }

  lemma CrlfFirst(line: string, rest: string)
    requires '\r' !in line
    ensures Text.SplitOn(line + "\r\n" + rest, "\r\n") == [line] + Text.SplitOn(rest, "\r\n")
  {
    var text := line + "\r\n" + rest;
    assert text[|line|..|line| + 2] == "\r\n";
    forall i | 0 <= i < |line| ensures !Text.OccursAt(text, "\r\n", i) {
      assert text[i] == line[i];
      assert i + 2 <= |text| ==> text[i..i + 2][0] == text[i];
    }
    Text.FindIs(text, "\r\n", |line|);
    assert text[..|line|] == line && text[|line| + 2..] == rest;
  }

  lemma LengthLineRead(length: nat)
    requires length < Text.USIZE_LIMIT
    ensures LengthFrom([LengthLine(length), "", ""], None) == Ok(length)
  {
    var digits := Text.ShowNat(length);
    var line := LengthLine(length);
    PlainLengthLine(length);
    assert line[..|FIELD|] == FIELD && line[|FIELD|..] == " " + digits;
    TrimDigits(digits);
    Text.ParseShown(length);
    assert LengthField(line) == Some(length);
    NoMoreFields(length);
  }

  lemma NoMoreFields(length: nat)
    ensures LengthFrom(["", ""], Some(length)) == Ok(length)
  {
    assert Text.Trim("") == "";
    assert ["", ""][1..] == [""] && [""][1..] == [];
  }

  lemma TrimDigits(digits: string)
    requires digits != "" && Text.AllDigits(digits)
    ensures Text.Trim(" " + digits) == digits
  {
    assert Text.IsDigit(digits[0]) && Text.IsDigit(digits[|digits| - 1]);
    var text := " " + digits;
    assert text[1..] == digits && Text.TrimStart(digits) == digits;
    assert Text.IsWhitespace(text[0]) && Text.TrimStart(text) == Text.TrimStart(text[1..]);
  }

  function Pow10(k: nat): nat
  {
    if k == 0 then 1 else 10 * Pow10(k - 1)
  }

  lemma {:induction false} PowSum(a: nat, b: nat)
    ensures Pow10(a + b) == Pow10(a) * Pow10(b)
  {
    if a > 0 {
      PowSum(a - 1, b);
    }
  }

  lemma {:induction false} ShownLength(n: nat, k: nat)
    requires k > 0 && n < Pow10(k)
    ensures |Text.ShowNat(n)| <= k
  {
    if n >= 10 {
      ShownLength(n / 10, k - 1);
    }
  }

  /** Any frame of fewer than 2^64 bytes is read back by the reader without limits, and by the
      other one exactly when the body is within the limit. */
  lemma FrameReadBack(body: Bytes, rest: Bytes, limited: bool)
    requires |body| < Text.USIZE_LIMIT
    ensures Take(Frame(body) + rest, limited)
            == if limited && |body| > MAX_FRAME_BODY_BYTES then Err(BodyTooLarge) else Ok(Taken(body, rest))
  {
    hide LengthIn, Encode, Text.Find, HeaderText;
    var header := Encode(HeaderText(|body|));
    HeaderOfFrame(|body|, body + rest);
    LengthOfFrame(|body|);
    ShortHeader(|body|);
    var all := Frame(body) + rest;
    assert all == header + (body + rest);
    assert all[..|header|] == header;
    assert all[|header|..|header| + |body|] == body && all[|header| + |body|..] == rest;
  }

  lemma ShortHeader(length: nat)
    requires length < Text.USIZE_LIMIT
    ensures 4 <= |HeaderText(length)| <= 40
  {
    assert Pow10(5) == 100_000;
    PowSum(5, 5);
    PowSum(10, 10);
    ShownLength(length, 20);
  }

  // ---- sequences of frames ----

  function Written<V>(codec: BodyCodec<V>, values: seq<V>): Bytes
  {
    if values == [] then [] else Frame(codec.render(values[0])) + Written(codec, values[1..])
  }

  datatype Read<V> = Read(values: seq<V>, rest: Bytes)

  /** What `count` calls in a row return when none fails. */
  function ReadAll<V>(codec: BodyCodec<V>, input: Bytes, count: nat, limited: bool): Result<Read<V>, FrameError>
  {
    if count == 0 then Ok(Read([], input))
    else
      var taken := Take(input, limited);
      var value := ValueOf(codec, taken);
      if value.Err? then Err(value.error)
      else
        var more := ReadAll(codec, taken.value.rest, count - 1, limited);
        if more.Err? then Err(more.error) else Ok(Read([value.value] + more.value.values, more.value.rest))
  }

  /** Frames written back to back are read back as the same values by either reader, and what
      follows them is left untouched. */
  lemma {:induction false} FramesReadBack<V>(codec: BodyCodec<V>, values: seq<V>, rest: Bytes, limited: bool)
    requires forall v :: v in values ==>
               ReadsBack(codec, v) && |codec.render(v)| < Text.USIZE_LIMIT && (limited ==> |codec.render(v)| <= MAX_FRAME_BODY_BYTES)
    ensures ReadAll(codec, Written(codec, values) + rest, |values|, limited) == Ok(Read(values, rest))
    decreases |values|
  {
    hide Take, Frame, ValueOf, ReadsBack;
    if values == [] {
      assert Written(codec, values) + rest == rest;
    } else {
      var more := Written(codec, values[1..]) + rest;
      ValueReadBack(codec, values[0], more, limited);
      FramesReadBack(codec, values[1..], rest, limited);
      assert Written(codec, values) + rest == Frame(codec.render(values[0])) + more;
      assert [values[0]] + values[1..] == values;
    }
  }

  lemma ValueReadBack<V>(codec: BodyCodec<V>, value: V, rest: Bytes, limited: bool)
    requires ReadsBack(codec, value) && |codec.render(value)| < Text.USIZE_LIMIT
    requires limited ==> |codec.render(value)| <= MAX_FRAME_BODY_BYTES
    ensures var taken := Take(Frame(codec.render(value)) + rest, limited);
            taken.Ok? && taken.value.rest == rest && ValueOf(codec, taken) == Ok(value)
  {
    hide Take, Frame;
    FrameReadBack(codec.render(value), rest, limited);
  }

  /** A frame cut short anywhere is never taken for a value. */
  lemma CutFrame(body: Bytes, length: nat, limited: bool)
    requires |body| < Text.USIZE_LIMIT && length < |Frame(body)| && (limited ==> |body| <= MAX_FRAME_BODY_BYTES)
    ensures Take(Frame(body)[..length], limited) == Err(EndOfInput)
  {
    hide LengthIn, Encode, HeaderText, Text.Find;
    var header, cut := Encode(HeaderText(|body|)), Frame(body)[..length];
    HeaderOfFrame(|body|, body);
    ShortHeader(|body|);
    Text.FindInPrefix(cut, Frame(body)[length..], BLANK_LINE);
    assert cut + Frame(body)[length..] == Frame(body);
    if length >= |header| {
      LengthOfFrame(|body|);
      assert cut[..|header|] == header;
    }
  }
}
