/** A message built for sending (src/email.rs) as the program's own MIME reader
    (src/email_attachment.rs) sees it: the headers it was given and the two texts it carries, with the
    exact conditions under which the texts are found and divided from their headers. */
module MailRoundTrip {
  import opened Wrappers
  import opened HeaderParams
  import Mime
  import Smtp
  import Text

  // ---- headers ----

  /** What a reader finds of the headers: names in lower case, values trimmed, no empty ones. */
  function ReadBack(headers: seq<Smtp.Header>): seq<Mime.Header>
  {
    if headers == [] then []
    else if headers[0].value == "" then ReadBack(headers[1..])
    else [Mime.Header(Mime.AsciiLowerAll(headers[0].name), Text.Trim(headers[0].value))] + ReadBack(headers[1..])
  }

  /** The lines of a header block. */
  function HeaderLines(headers: seq<Smtp.Header>): seq<string>
  {
    if headers == [] then []
    else if headers[0].value == "" then HeaderLines(headers[1..])
    else [headers[0].name + ": " + headers[0].value] + HeaderLines(headers[1..])
  }

  predicate PlainLines(lines: seq<string>)
  {
    forall i :: 0 <= i < |lines| ==> Mime.PlainLine(lines[i]) && lines[i] != ""
  }

  lemma {:induction false} BlockOfLines(headers: seq<Smtp.Header>)
    requires Smtp.HeaderBlock(headers).Some? && Smtp.PlainNames(headers)
    ensures Smtp.HeaderBlock(headers).value == Mime.Written(HeaderLines(headers), "\r\n")
    ensures PlainLines(HeaderLines(headers))
    decreases |headers|
  {
    if headers != [] {
      BlockOfLines(headers[1..]);
      if headers[0].value != "" {
        PlainHeaderLine(headers[0]);
        assert HeaderLines(headers)[1..] == HeaderLines(headers[1..]);
      }
    }
  }

  lemma PlainHeaderLine(header: Smtp.Header)
    requires Smtp.PlainName(header.name) && '\r' !in header.value && '\n' !in header.value
    ensures Mime.PlainLine(header.name + ": " + header.value)
  {
    var line := header.name + ": " + header.value;
    assert '\n' !in header.name && '\r' !in header.name;
    assert '\r' !in line;
  }

  /** The lines of a block from which the last line's ending has been taken. */
  lemma LinesOfBlock(lines: seq<string>)
    requires lines != [] && PlainLines(lines)
    ensures var block := Mime.Written(lines, "\r\n");
            |block| >= 2 && Text.Lines(block[..|block| - 2]) == lines
  {
    hide Text.Lines;
    var front, last := lines[..|lines| - 1], lines[|lines| - 1];
    assert lines == front + [last];
    WrittenSnoc(front, last);
    var block := Mime.Written(lines, "\r\n");
    assert block[..|block| - 2] == Mime.Written(front, "\r\n") + last;
    Mime.LinesWritten(front, "\r\n", last);
    Text.LineAlone(last);
  }

  lemma {:induction false} WrittenSnoc(lines: seq<string>, line: string)
    ensures Mime.Written(lines + [line], "\r\n") == Mime.Written(lines, "\r\n") + line + "\r\n"
    decreases |lines|
  {
    if lines == [] {
      assert [line][1..] == [];
    } else {
      assert (lines + [line])[1..] == lines[1..] + [line];
      WrittenSnoc(lines[1..], line);
    }
  }

  /** A header line is read as one header, whatever its value holds. */
  lemma HeaderLineRead(headers: seq<Mime.Header>, header: Smtp.Header)
    requires Smtp.PlainName(header.name)
    ensures Mime.WithLine(headers, header.name + ": " + header.value)
            == headers + [Mime.Header(Mime.AsciiLowerAll(header.name), Text.Trim(header.value))]
  {
    hide Text.Find, Text.TrimEnd;
    var line := header.name + ": " + header.value;
    assert ':' !in header.name;
    assert line == header.name + [':'] + (" " + header.value);
    Text.FindAfter(header.name, ':', " " + header.value);
    assert [':'] == ":";
    assert line[..|header.name|] == header.name && line[|header.name| + 1..] == " " + header.value;
    assert line[0] == header.name[0];
    TrimName(header.name);
    TrimSpace(header.value);
  }

  lemma TrimName(name: string)
    requires Smtp.PlainName(name)
    ensures Text.Trim(name) == name
  {
    assert !Text.IsWhitespace(name[0]) && !Text.IsWhitespace(name[|name| - 1]);
  }

  lemma TrimSpace(value: string)
    ensures Text.Trim(" " + value) == Text.Trim(value)
  {
    assert (" " + value)[1..] == value;
  }

  lemma {:induction false} HeaderLinesRead(read: seq<Mime.Header>, headers: seq<Smtp.Header>)
    requires Smtp.PlainNames(headers)
    ensures Mime.WithLines(read, HeaderLines(headers)) == read + ReadBack(headers)
    decreases |headers|
  {
    hide Mime.WithLine, Smtp.PlainName, Mime.WithLines, Text.Trim;
    if headers == [] {
      NoLinesRead(read);
    } else if headers[0].value == "" {
      HeaderLinesRead(read, headers[1..]);
    } else {
      var one := Mime.Header(Mime.AsciiLowerAll(headers[0].name), Text.Trim(headers[0].value));
      HeaderLineRead(read, headers[0]);
      HeaderLinesRead(read + [one], headers[1..]);
      FirstLineRead(read, headers[0].name + ": " + headers[0].value, HeaderLines(headers[1..]));
      assert read + [one] + ReadBack(headers[1..]) == read + ([one] + ReadBack(headers[1..]));
    }
  }

  lemma NoLinesRead(read: seq<Mime.Header>)
    ensures Mime.WithLines(read, []) == read && read + [] == read
  {
  }

  lemma FirstLineRead(read: seq<Mime.Header>, line: string, lines: seq<string>)
    ensures Mime.WithLines(read, [line] + lines) == Mime.WithLines(Mime.WithLine(read, line), lines)
  {
    hide Mime.WithLine;
    assert ([line] + lines)[1..] == lines;
  }

  /** Whatever its header values and texts hold, a built message is read with exactly the headers
      it was built with, each once and in order, and with the body it was built with. */
  lemma HeadersReadBack(request: Smtp.Request, messageId: string)
    requires Smtp.HasBody(request) && Smtp.Message(request, messageId).Some?
    ensures var (block, body) := Mime.SplitHeaderBlock(Smtp.Message(request, messageId).value);
            && Mime.WithLines([], Text.Lines(block)) == ReadBack(Smtp.Headers(request, messageId))
            && body == Smtp.Body(request, messageId)
  {
    hide Smtp.Headers, Smtp.Body, Smtp.HeaderBlock, Mime.SplitHeaderBlock, Smtp.PlainNames, Text.Lines, PlainLines;
    var headers := Smtp.Headers(request, messageId);
    Smtp.BuiltMessageSplits(request, messageId);
    Smtp.HeaderNamesPlain(request, messageId);
    BlockOfLines(headers);
    assert HeaderLines(headers) != [];
    LinesOfBlock(HeaderLines(headers));
    HeaderLinesRead([], headers);
    assert [] + ReadBack(headers) == ReadBack(headers);
  }

  // ---- what each header says ----

  /** What a message says under a name: the request's addresses, subject and threading. An empty value
      is the same as none, and no other header exists, so in particular no Bcc. */
  function Said(request: Smtp.Request, messageId: string, name: string): Option<string>
  {
    if name == "from" then Shown(request.from)
    else if name == "to" then Shown(Text.Join(request.to, ", "))
    else if name == "cc" then Shown(if request.cc != [] then Text.Join(request.cc, ", ") else "")
    else if name == "subject" then Shown(request.subject)
    else if name == "message-id" then Shown(messageId)
    else if name == "in-reply-to" then Shown(if request.inReplyTo.Some? then request.inReplyTo.value else "")
    else if name == "references" then Shown(if request.references != [] then Text.Join(request.references, " ") else "")
    else if name == "mime-version" then Some("1.0")
    else if name == "content-type" then Some(
      if request.text.Some? && request.html.Some? then "multipart/alternative; boundary=\"" + Smtp.Boundary(messageId) + "\""
      else (if request.text.Some? then "text/plain" else "text/html") + "; charset=utf-8")
    else if name == "content-transfer-encoding" && !(request.text.Some? && request.html.Some?) then Some("8bit")
    else None
  }

  function Shown(value: string): Option<string>
  {
    if value == "" then None else Some(Text.Trim(value))
  }

  function Found(headers: seq<Smtp.Header>, name: string): Option<string>
  {
    HeaderValueOf(ReadBack(headers), name)
  }

  function Either(first: Option<string>, second: Option<string>): Option<string>
  {
    if first.Some? then first else second
  }

  lemma {:induction false} FoundConcat(a: seq<Smtp.Header>, b: seq<Smtp.Header>, name: string)
    ensures Found(a + b, name) == Either(Found(a, name), Found(b, name))
    decreases |a|
  {
    hide Text.Trim, Mime.AsciiLowerAll;
    if a == [] {
      assert a + b == b;
    } else {
      FoundConcat(a[1..], b, name);
      assert (a + b)[1..] == a[1..] + b;
    }
  }

  lemma FoundOne(header: Smtp.Header, name: string)
    ensures Found([header], name) == if Mime.AsciiLowerAll(header.name) == name then Shown(header.value) else None
  {
    hide Text.Trim, Mime.AsciiLowerAll;
    var one := [header];
    var rest := one[1..];
    assert rest == [] && ReadBack(rest) == [];
    var read := ReadBack(one);
    if header.value != "" {
      assert read == [Mime.Header(Mime.AsciiLowerAll(header.name), Text.Trim(header.value))] + ReadBack(rest);
      assert |read| == 1 && HeaderValueOf(read[1..], name) == None;
    }
  }

  lemma FoundTwo(first: Smtp.Header, second: Smtp.Header, name: string)
    ensures Found([first, second], name) == Either(Found([first], name), Found([second], name))
  {
    FoundConcat([first], [second], name);
    assert [first] + [second] == [first, second];
  }

  lemma FoundOptional(headerName: string, present: bool, value: string, name: string)
    ensures Found(Smtp.Optional(headerName, present, value), name)
            == if Mime.AsciiLowerAll(headerName) == name then Shown(if present then value else "") else None
  {
    hide Mime.AsciiLowerAll;
    FoundOne(Smtp.Header(headerName, value), name);
  }

  lemma LowerHeaderNames()
    ensures Mime.AsciiLowerAll("From") == "from" && Mime.AsciiLowerAll("To") == "to" && Mime.AsciiLowerAll("Cc") == "cc"
    ensures Mime.AsciiLowerAll("Subject") == "subject" && Mime.AsciiLowerAll("Message-ID") == "message-id"
    ensures Mime.AsciiLowerAll("In-Reply-To") == "in-reply-to" && Mime.AsciiLowerAll("References") == "references"
    ensures Mime.AsciiLowerAll("MIME-Version") == "mime-version"
  {
  }

  lemma FoundContent(request: Smtp.Request, messageId: string, name: string)
    ensures Found(Smtp.ContentHeaders(request, messageId), name)
            == if name == "content-type" || name == "content-transfer-encoding" then Said(request, messageId, name) else None
  {
    hide Found, Smtp.Boundary;
    var headers := Smtp.ContentHeaders(request, messageId);
    if request.text.Some? && request.html.Some? {
      FoundMultipart(messageId, name);
      assert headers == [headers[0]];
    } else {
      FoundSingle(if request.text.Some? then "text/plain" else "text/html", name);
      assert headers == [headers[0], headers[1]];
    }
  }

  lemma FoundMultipart(messageId: string, name: string)
    ensures var value := "multipart/alternative; boundary=\"" + Smtp.Boundary(messageId) + "\"";
            Found([Smtp.Header("Content-Type", value)], name) == if name == "content-type" then Some(value) else None
  {
    hide Mime.AsciiLowerAll, Smtp.Boundary, Found, Text.Trim;
    LowerNames();
    TrimmedQuoted("multipart/alternative; boundary=\"" + Smtp.Boundary(messageId));
    FoundOne(Smtp.Header("Content-Type", "multipart/alternative; boundary=\"" + Smtp.Boundary(messageId) + "\""), name);
  }

  lemma FoundSingle(contentType: string, name: string)
    requires ContentType(contentType)
    ensures var value := contentType + "; charset=utf-8";
            Found([Smtp.Header("Content-Type", value), Smtp.Header("Content-Transfer-Encoding", "8bit")], name)
            == if name == "content-type" then Some(value) else if name == "content-transfer-encoding" then Some("8bit") else None
  {
    hide Mime.AsciiLowerAll, Found, Text.Trim;
    var first, second := Smtp.Header("Content-Type", contentType + "; charset=utf-8"), Smtp.Header("Content-Transfer-Encoding", "8bit");
    LowerNames();
    TrimmedValues(contentType);
    FoundTwo(first, second, name);
    FoundOne(first, name);
    FoundOne(second, name);
  }

  lemma TrimmedQuoted(text: string)
    requires text != "" && text[0] == 'm'
    ensures Text.Trim(text + "\"") == text + "\""
  {
    var quoted := text + "\"";
    assert quoted[0] == 'm' && quoted[|quoted| - 1] == '\"';
  }

  /** Under every name a reader finds what the request says, and nothing else. */
  lemma HeadersSay(request: Smtp.Request, messageId: string, name: string)
    requires Smtp.HasBody(request) && Smtp.Message(request, messageId).Some?
    ensures var block := Mime.SplitHeaderBlock(Smtp.Message(request, messageId).value).0;
            HeaderValueOf(Mime.WithLines([], Text.Lines(block)), name) == Said(request, messageId, name)
  {
    HeadersReadBack(request, messageId);
    FoundInHeaders(request, messageId, name);
  }

  lemma FoundInHeaders(request: Smtp.Request, messageId: string, name: string)
    ensures Found(Smtp.Headers(request, messageId), name) == Said(request, messageId, name)
  {
    hide Mime.AsciiLowerAll, Smtp.Boundary, Found, Text.Trim, Smtp.ContentHeaders, Smtp.Optional, Text.Join;
    var first := [Smtp.Header("From", request.from), Smtp.Header("To", Text.Join(request.to, ", "))];
    var cc := Smtp.Optional("Cc", request.cc != [], Text.Join(request.cc, ", "));
    var subject := [Smtp.Header("Subject", request.subject), Smtp.Header("Message-ID", messageId)];
    var inReplyTo := Smtp.Optional("In-Reply-To", request.inReplyTo.Some?, if request.inReplyTo.Some? then request.inReplyTo.value else "");
    var references := Smtp.Optional("References", request.references != [], Text.Join(request.references, " "));
    var version := [Smtp.Header("MIME-Version", "1.0")];
    var content := Smtp.ContentHeaders(request, messageId);
    FoundConcat(first + cc + subject + inReplyTo + references + version, content, name);
    FoundConcat(first + cc + subject + inReplyTo + references, version, name);
    FoundConcat(first + cc + subject + inReplyTo, references, name);
    FoundConcat(first + cc + subject, inReplyTo, name);
    FoundConcat(first + cc, subject, name);
    FoundConcat(first, cc, name);
    FoundTwo(first[0], first[1], name);
    FoundTwo(subject[0], subject[1], name);
    FoundOne(first[0], name);
    FoundOne(first[1], name);
    FoundOne(subject[0], name);
    FoundOne(subject[1], name);
    FoundOne(version[0], name);
    FoundOptional("Cc", request.cc != [], Text.Join(request.cc, ", "), name);
    FoundOptional("In-Reply-To", request.inReplyTo.Some?, if request.inReplyTo.Some? then request.inReplyTo.value else "", name);
    FoundOptional("References", request.references != [], Text.Join(request.references, " "), name);
    FoundContent(request, messageId, name);
    LowerHeaderNames();
    assert Text.Trim("1.0") == "1.0" by { TrimmedVersion(); }
  }

  lemma TrimmedVersion()
    ensures Text.Trim("1.0") == "1.0"
  {
  }

  // ---- the two texts of an alternative body ----

  /** The lines of a text that the builder ends with a line break. */
  function ContentLines(content: string): (lines: seq<string>)
    ensures lines != []
  {
    ContentNotEmpty(content);
    Text.Lines(content + "\r\n")
  }

  lemma ContentNotEmpty(content: string)
    ensures Text.Lines(content + "\r\n") != []
  {
    assert content + "\r\n" != "";
  }

  /** A text as a part of the message holds it: with LF line breaks and no break at its end. */
  function Normalized(content: string): string
  {
    Mime.PartText(ContentLines(content))
  }

  function PartHeaderLines(contentType: string): seq<string>
  {
    [Smtp.TypeLine(contentType), Smtp.ENCODING_LINE]
  }

  function PartHead(contentType: string): string
  {
    Smtp.TypeLine(contentType) + "\n" + Smtp.ENCODING_LINE
  }

  function PartLinesOf(contentType: string, content: string): seq<string>
  {
    PartHeaderLines(contentType) + [""] + ContentLines(content)
  }

  /** Lines of a text and of what follows its last line break. */
  lemma {:induction false} LinesConcat(content: string, rest: string)
    ensures Text.Lines(content + "\r\n" + rest) == ContentLines(content) + Text.Lines(rest)
    decreases |content|
  {
    hide Text.Find;
    var whole, alone := content + "\r\n" + rest, content + "\r\n";
    var end := Text.Find(content, "\n");
    var at := if end.Some? then end.value else |content| + 1;
    FirstBreak(content, rest, at);
    FirstBreak(content, "", at);
    assert alone + "" == alone;
    assert whole[..at] == alone[..at];
    if end.Some? {
      var tail := content[at + 1..];
      assert whole[at + 1..] == tail + "\r\n" + rest && alone[at + 1..] == tail + "\r\n";
      LinesConcat(tail, rest);
    } else {
      assert whole[at + 1..] == rest && alone[at + 1..] == "";
      assert [Text.WithoutCr(whole[..at])] + Text.Lines("") == [Text.WithoutCr(whole[..at])];
    }
  }

  /** The first line break of `content` and the one put after it. */
  lemma FirstBreak(content: string, rest: string, at: nat)
    requires at == if Text.Find(content, "\n").Some? then Text.Find(content, "\n").value else |content| + 1
    ensures Text.Find(content + "\r\n" + rest, "\n") == Some(at)
  {
    var whole := content + "\r\n" + rest;
    assert "\n" == ['\n'];
    forall i | 0 <= i < at ensures !Text.OccursAt(whole, "\n", i) {
      Text.OccursSingle(whole, '\n', i);
      if i < |content| {
        Text.OccursSingle(content, '\n', i);
      }
    }
    Text.OccursSingle(whole, '\n', at);
    if at < |content| {
      Text.OccursSingle(content, '\n', at);
    }
    Text.FindIs(whole, "\n", at);
  }

  lemma LineFirst(line: string, rest: string)
    requires Mime.PlainLine(line)
    ensures Text.Lines(line + "\r\n" + rest) == [line] + Text.Lines(rest)
  {
    Mime.LinesCons(line, "\r\n", rest);
  }

  predicate ContentType(contentType: string)
  {
    contentType == "text/plain" || contentType == "text/html"
  }

  lemma PartHeaderPlain(contentType: string)
    requires ContentType(contentType)
    ensures Mime.PlainLine(PartHeaderLines(contentType)[0]) && Mime.PlainLine(PartHeaderLines(contentType)[1])
  {
  }

  lemma LinesOfPart(boundary: string, contentType: string, content: string, rest: string)
    requires Mime.PlainLine("--" + boundary) && ContentType(contentType)
    ensures Text.Lines(Smtp.PartText(boundary, contentType, content) + rest)
            == ["--" + boundary] + PartLinesOf(contentType, content) + Text.Lines(rest)
  {
    hide Text.Lines, Mime.PlainLine;
    var head := PartHeaderLines(contentType);
    PartHeaderPlain(contentType);
    LinesConcat(content, rest);
    FourLines("--" + boundary, head[0], head[1], content + "\r\n" + rest);
    PartAsLines(boundary, contentType, content, rest);
    FourFirst("--" + boundary, head, ContentLines(content), Text.Lines(rest));
  }

  /** Four lines in front of a text, the last of them empty. */
  function FourInFront(a: string, b: string, c: string, rest: string): string
  {
    a + "\r\n" + (b + "\r\n" + (c + "\r\n" + ("" + "\r\n" + rest)))
  }

  lemma FourLines(a: string, b: string, c: string, rest: string)
    requires Mime.PlainLine(a) && Mime.PlainLine(b) && Mime.PlainLine(c)
    ensures Text.Lines(FourInFront(a, b, c, rest)) == [a] + ([b] + ([c] + ([""] + Text.Lines(rest))))
  {
    hide Text.Lines, Mime.PlainLine;
    EmptyPlain();
    var t2 := "" + "\r\n" + rest;
    var t1 := c + "\r\n" + t2;
    LineFirst("", rest);
    LineFirst(c, t2);
    LineFirst(b, t1);
    LineFirst(a, b + "\r\n" + t1);
  }

  lemma PartAsLines(boundary: string, contentType: string, content: string, rest: string)
    ensures var head := PartHeaderLines(contentType);
            Smtp.PartText(boundary, contentType, content) + rest
            == FourInFront("--" + boundary, head[0], head[1], content + "\r\n" + rest)
  {
    hide Smtp.TypeLine;
    var text := content + "\r\n" + rest;
    assert "" + "\r\n" + text == "\r\n" + text;
    var a, b, c := "--" + boundary + "\r\n", Smtp.TypeLine(contentType) + "\r\n", Smtp.ENCODING_LINE + "\r\n";
    assert Smtp.PartText(boundary, contentType, content) == a + b + c + "\r\n" + content + "\r\n";
    assert a + b + c + "\r\n" + content + "\r\n" + rest == a + (b + (c + ("\r\n" + text)));
  }

  lemma EmptyPlain()
    ensures Mime.PlainLine("")
  {
  }

  lemma FourFirst(a: string, head: seq<string>, c: seq<string>, d: seq<string>)
    requires |head| == 2
    ensures [a] + ([head[0]] + ([head[1]] + ([""] + (c + d)))) == [a] + (head + [""] + c) + d
  {
  }

  /** The part as a text: its header lines, a blank line and the normalized content. */
  lemma PartTextIs(contentType: string, content: string)
    ensures Mime.PartText(PartLinesOf(contentType, content)) == PartHead(contentType) + "\n\n" + Normalized(content)
  {
    hide Mime.PartText, ContentLines, Smtp.TypeLine;
    var a, b, lines := Smtp.TypeLine(contentType), Smtp.ENCODING_LINE, ContentLines(content);
    PartTextCons("", lines);
    PartTextCons(b, [""] + lines);
    PartTextCons(a, [b] + ([""] + lines));
    ThreeInFront(a, b, lines);
    BreaksJoined(a, b, Normalized(content));
  }

  lemma ThreeInFront(a: string, b: string, lines: seq<string>)
    ensures [a, b] + [""] + lines == [a] + ([b] + ([""] + lines))
  {
  }

  lemma BreaksJoined(a: string, b: string, text: string)
    ensures a + "\n" + (b + "\n" + ("" + "\n" + text)) == a + "\n" + b + "\n\n" + text
  {
  }

  lemma PartTextCons(line: string, lines: seq<string>)
    requires lines != []
    ensures Mime.PartText([line] + lines) == line + "\n" + Mime.PartText(lines)
  {
    assert ([line] + lines)[1..] == lines;
  }

  /** A message identifier without line breaks makes a boundary without line breaks. */
  lemma BoundaryPlain(messageId: string)
    requires '\r' !in messageId && '\n' !in messageId
    ensures Mime.PlainLine(Smtp.Boundary(messageId)) && Smtp.Boundary(messageId) != ""
    ensures Mime.PlainLine("--" + Smtp.Boundary(messageId))
  {
    Smtp.BoundaryUnbroken(messageId);
    assert '\r' !in Smtp.Boundary(messageId) && '\n' !in Smtp.Boundary(messageId);
  }

  /** The message identifier of a built message has no line break. */
  lemma {:induction false} AcceptedValues(headers: seq<Smtp.Header>, header: Smtp.Header)
    requires Smtp.HeaderBlock(headers).Some? && header in headers
    ensures '\r' !in header.value && '\n' !in header.value
    decreases |headers|
  {
    if headers[0] != header {
      AcceptedValues(headers[1..], header);
    }
  }

  lemma HasMessageId(request: Smtp.Request, messageId: string)
    ensures Smtp.Header("Message-ID", messageId) in Smtp.Headers(request, messageId)
  {
    var headers := Smtp.Headers(request, messageId);
    var i := 3 + if request.cc != [] then 1 else 0;
    assert headers[i] == Smtp.Header("Message-ID", messageId);
  }

  predicate Alternative(request: Smtp.Request)
  {
    request.text.Some? && request.html.Some?
  }

  function AlternativeParts(request: Smtp.Request): seq<seq<string>>
    requires Alternative(request)
  {
    [PartLinesOf("text/plain", request.text.value), PartLinesOf("text/html", request.html.value)]
  }

  lemma LinesOfBody(request: Smtp.Request, messageId: string)
    requires Alternative(request) && '\r' !in messageId && '\n' !in messageId
    ensures var boundary := Smtp.Boundary(messageId);
            Text.Lines(Smtp.Body(request, messageId))
            == Mime.WrittenParts(AlternativeParts(request), boundary) + (["--" + boundary + "--"] + [])
  {
    var boundary := Smtp.Boundary(messageId);
    BoundaryPlain(messageId);
    Mime.DelimiterLines(boundary);
    hide Text.Lines, Smtp.Boundary, Smtp.PartText, Mime.PlainLine, PartLinesOf, Mime.Delimits, Mime.Closes, Mime.WrittenParts;
    var last := "--" + boundary + "--" + "\r\n" + "";
    var html := Smtp.PartText(boundary, "text/html", request.html.value) + last;
    LineFirst("--" + boundary + "--", "");
    LinesOfPart(boundary, "text/html", request.html.value, last);
    LinesOfPart(boundary, "text/plain", request.text.value, html);
    BodyInParts(request, messageId);
    NoLines();
    TwoParts(AlternativeParts(request), boundary);
  }

  lemma BodyInParts(request: Smtp.Request, messageId: string)
    requires Alternative(request)
    ensures var boundary := Smtp.Boundary(messageId);
            var html := Smtp.PartText(boundary, "text/html", request.html.value) + ("--" + boundary + "--" + "\r\n" + "");
            Smtp.Body(request, messageId) == Smtp.PartText(boundary, "text/plain", request.text.value) + html
  {
    hide Smtp.Boundary, Smtp.PartText;
  }

  lemma NoLines()
    ensures Text.Lines("") == []
  {
  }

  lemma TwoParts(parts: seq<seq<string>>, boundary: string)
    requires |parts| == 2
    ensures var d, end := ["--" + boundary], ["--" + boundary + "--"] + [];
            Mime.WrittenParts(parts, boundary) + end == d + parts[0] + (d + parts[1] + end)
  {
    assert parts[1..] == [parts[1]] && parts[1..][1..] == [];
    assert Mime.WrittenParts([parts[1]], boundary) == ["--" + boundary] + parts[1] + [];
  }

  predicate NoDelimiters(request: Smtp.Request, boundary: string)
    requires Alternative(request)
  {
    Mime.NoDelimiter(ContentLines(request.text.value), boundary) && Mime.NoDelimiter(ContentLines(request.html.value), boundary)
  }

  /** The part that a reader should find for each text. */
  function SentPart(contentType: string, content: string): string
  {
    PartHead(contentType) + "\n\n" + Normalized(content)
  }

  lemma HeaderNoDelimiter(contentType: string, content: string, boundary: string)
    requires ContentType(contentType)
    ensures Mime.NoDelimiter(PartLinesOf(contentType, content), boundary)
            <==> Mime.NoDelimiter(ContentLines(content), boundary)
  {
    var lines, content := PartLinesOf(contentType, content), ContentLines(content);
    assert forall i :: 0 <= i < |content| ==> lines[i + 3] == content[i];
    DelimiterStarts(lines[0], boundary);
    DelimiterStarts(lines[1], boundary);
    DelimiterStarts(lines[2], boundary);
    hide Mime.Delimits;
    if Mime.NoDelimiter(lines, boundary) {
      forall i | 0 <= i < |content| ensures !Mime.Delimits(content[i], boundary) {
        assert lines[i + 3] == content[i];
      }
    } else {
      var i :| 0 <= i < |lines| && Mime.Delimits(lines[i], boundary);
      assert lines[i] == content[i - 3];
    }
  }

  lemma DelimiterStarts(line: string, boundary: string)
    ensures Mime.Delimits(line, boundary) ==> line != "" && line[0] == '-'
  {
    if Text.StartsWith(line, "--" + boundary) {
      assert line[0] == line[..2 + |boundary|][0];
    }
  }

  /** The splitter, given the message's own boundary, finds the two texts exactly when no line of
      either is a delimiter for it. */
  lemma TextsSplitIff(request: Smtp.Request, messageId: string)
    requires Alternative(request) && Smtp.Message(request, messageId).Some?
    ensures var body, boundary := Mime.SplitHeaderBlock(Smtp.Message(request, messageId).value).1, Smtp.Boundary(messageId);
            Mime.Parts(body, boundary) == [SentPart("text/plain", request.text.value), SentPart("text/html", request.html.value)]
            <==> NoDelimiters(request, boundary)
  {
    hide Smtp.Headers, Smtp.HeaderBlock, Smtp.Body, Mime.SplitHeaderBlock, Mime.PartsFrom, Text.Lines, Smtp.Boundary;
    hide SentPart, PartLinesOf, ContentLines, Mime.NoDelimiter, Mime.WrittenParts;
    var body, boundary := Smtp.Body(request, messageId), Smtp.Boundary(messageId);
    HeadersReadBack(request, messageId);
    HasMessageId(request, messageId);
    AcceptedValues(Smtp.Headers(request, messageId), Smtp.Header("Message-ID", messageId));
    LinesOfBody(request, messageId);
    HeaderNoDelimiter("text/plain", request.text.value, boundary);
    HeaderNoDelimiter("text/html", request.html.value, boundary);
    BoundaryPlain(messageId);
    SentPartTexts(request);
    BothOrNeither(body, boundary, AlternativeParts(request));
  }

  lemma BothOrNeither(body: string, boundary: string, parts: seq<seq<string>>)
    requires boundary != "" && Mime.PlainLine(boundary)
    requires |parts| == 2 && forall i :: 0 <= i < |parts| ==> parts[i] != [] && Mime.NoNewline(parts[i])
    requires Text.Lines(body) == Mime.WrittenParts(parts, boundary) + (["--" + boundary + "--"] + [])
    ensures Mime.Parts(body, boundary) == Mime.PartTexts(parts)
            <==> Mime.NoDelimiter(parts[0], boundary) && Mime.NoDelimiter(parts[1], boundary)
  {
    hide Mime.PartsFrom, Text.Lines, Mime.NoDelimiter, Mime.PartText, Mime.NoNewline, Mime.WrittenParts;
    Mime.PartsClean(body, boundary);
    Mime.SplitPartText(parts[0]);
    Mime.SplitPartText(parts[1]);
    var texts := Mime.PartTexts(parts);
    assert |texts| == 2 && texts[0] == Mime.PartText(parts[0]) && texts[1] == Mime.PartText(parts[1]);
    if Mime.NoDelimiter(parts[0], boundary) && Mime.NoDelimiter(parts[1], boundary) {
      Mime.ReadParts(parts, boundary, None, []);
      assert [] + Mime.PartTexts(parts) == Mime.PartTexts(parts);
    }
  }

  // ---- the boundary the reader uses ----

  /** A body written for one boundary and split by another never gives the parts that were written:
      without their delimiter lines there are none, and a boundary that the delimiter lines begin
      with makes a third part of the closing one. */
  lemma WrongBoundary(body: string, boundary: string, other: string, parts: seq<seq<string>>)
    requires other != "" && other != boundary
    requires |parts| == 2 && forall i :: 0 <= i < |parts| ==> parts[i] != [] && Mime.NoNewline(parts[i])
    requires Text.Lines(body) == Mime.WrittenParts(parts, boundary) + (["--" + boundary + "--"] + [])
    ensures Mime.Parts(body, other) != Mime.PartTexts(parts)
  {
    hide Mime.PartsFrom, Text.Lines, Mime.NoDelimiter, Mime.PartText, Mime.NoNewline, Mime.WrittenParts, Mime.Delimits, Mime.Closes;
    Mime.PartsClean(body, other);
    Mime.SplitPartText(parts[0]);
    Mime.SplitPartText(parts[1]);
    var texts := Mime.PartTexts(parts);
    assert |texts| == 2 && texts[0] == Mime.PartText(parts[0]) && texts[1] == Mime.PartText(parts[1]);
    TwoParts(parts, boundary);
    if Mime.NoDelimiter(parts[0], other) && Mime.NoDelimiter(parts[1], other) {
      OtherDelimiters(boundary, other);
      OtherParts("--" + boundary, parts[0], parts[1], "--" + boundary + "--", other);
    }
  }

  /** What the delimiter lines of one boundary are for another. */
  lemma OtherDelimiters(boundary: string, other: string)
    requires other != boundary
    ensures var open, close := "--" + boundary, "--" + boundary + "--";
            Mime.Delimits(open, other) && !Mime.Closes(open, other) ==> Mime.Delimits(close, other) && !Mime.Closes(close, other)
  {
    var open, close := "--" + boundary, "--" + boundary + "--";
    if Mime.Delimits(open, other) && !Mime.Closes(open, other) {
      var after := open[2 + |other|..];
      assert open == "--" + other + after;
      assert open[2..] == boundary && ("--" + other + after)[2..] == other + after;
      assert after == "" ==> other + after == other;
      assert close == "--" + other + (after + "--");
      assert close[..2 + |other|] == "--" + other && close[2 + |other|..] == after + "--";
      assert (after + "--")[..2][0] == after[0];
    }
  }

  lemma OtherParts(open: string, first: seq<string>, second: seq<string>, close: string, other: string)
    requires Mime.NoDelimiter(first, other) && Mime.NoDelimiter(second, other)
    requires Mime.Delimits(open, other) && !Mime.Closes(open, other) ==> Mime.Delimits(close, other) && !Mime.Closes(close, other)
    ensures |Mime.PartsFrom([open] + first + ([open] + second + ([close] + [])), other, None)| != 2
  {
    hide Mime.Delimits, Mime.Closes, Mime.NoDelimiter, Mime.Finished;
    var end: seq<string> := [close] + [];
    var tail := [open] + second + end;
    var all := [open] + first + tail;
    assert all[0] == open && all[1..] == first + tail && tail[0] == open && tail[1..] == second + end;
    assert end[0] == close && end[1..] == [];
    if !Mime.Delimits(open, other) {
      Mime.SkipPreamble(first, other, tail);
      Mime.SkipPreamble(second, other, end);
      NoMoreLines(other, None);
      NoMoreLines(other, Some(""));
    } else if !Mime.Closes(open, other) {
      Mime.ReadLines(first, other, "", tail);
      Mime.ReadLines(second, other, "", end);
      NoMoreLines(other, Some(""));
    }
  }

  lemma NoMoreLines(boundary: string, current: Option<string>)
    ensures Mime.PartsFrom([], boundary, current) == Mime.Collected(current)
  {
  }

  lemma BoundaryStart(messageId: string)
    ensures Smtp.Boundary(messageId) != "" && Smtp.Boundary(messageId)[0] == 'u'
  {
  }

  lemma AlternativeSaid(request: Smtp.Request, messageId: string)
    requires Alternative(request)
    ensures Said(request, messageId, "content-type") == Some(QuotedBoundary("alternative", Smtp.Boundary(messageId)))
  {
    hide Smtp.Boundary;
    assert "multipart/alternative; boundary=\"" == MULTIPART + "alternative" + ";" + NAMED + "\"";
  }

  /** The program's own reader finds the two texts of a built message exactly when the boundary that
      the message identifier makes is plain and no line of either text is a delimiter for it. */
  lemma TextsReadBackIff(request: Smtp.Request, messageId: string)
    requires Alternative(request) && Smtp.Message(request, messageId).Some?
    ensures var (block, body) := Mime.SplitHeaderBlock(Smtp.Message(request, messageId).value);
            var kind, boundary := KindOf(Mime.WithLines([], Text.Lines(block))), Smtp.Boundary(messageId);
            && kind.Multipart? && kind.subtype == "alternative"
            && (Mime.Parts(body, kind.boundary) == [SentPart("text/plain", request.text.value), SentPart("text/html", request.html.value)]
                <==> PlainBoundary(boundary) && NoDelimiters(request, boundary))
  {
    hide Smtp.Headers, Smtp.HeaderBlock, Smtp.Body, Mime.SplitHeaderBlock, Mime.Parts, Text.Lines, Smtp.Boundary;
    hide SentPart, PartLinesOf, NoDelimiters, Mime.WrittenParts, KindOf, PlainBoundary, Said, HeaderValueOf, Mime.WithLines;
    var (block, body) := Mime.SplitHeaderBlock(Smtp.Message(request, messageId).value);
    var headers, boundary := Mime.WithLines([], Text.Lines(block)), Smtp.Boundary(messageId);
    HeadersReadBack(request, messageId);
    HeadersSay(request, messageId, "content-type");
    AlternativeSaid(request, messageId);
    BoundaryStart(messageId);
    AlternativeIff(headers, boundary);
    TextsSplitIff(request, messageId);
    var kind := KindOf(headers);
    if kind.boundary != boundary {
      HasMessageId(request, messageId);
      AcceptedValues(Smtp.Headers(request, messageId), Smtp.Header("Message-ID", messageId));
      LinesOfBody(request, messageId);
      SentPartTexts(request);
      WrongBoundary(body, boundary, kind.boundary, AlternativeParts(request));
    }
  }

  /** With the identifier `<a\b@x>` the reader unescapes the boundary and finds neither text. */
  lemma BackslashLosesTexts(request: Smtp.Request)
    requires Alternative(request) && Smtp.Message(request, "<a\\b@x>").Some?
    ensures var (block, body) := Mime.SplitHeaderBlock(Smtp.Message(request, "<a\\b@x>").value);
            var kind := KindOf(Mime.WithLines([], Text.Lines(block)));
            kind.Multipart?
            && Mime.Parts(body, kind.boundary) != [SentPart("text/plain", request.text.value), SentPart("text/html", request.html.value)]
  {
    hide Smtp.Message, KindOf, Mime.Parts, SentPart, Mime.SplitHeaderBlock, Text.Lines, Smtp.Boundary, NoDelimiters;
    TextsReadBackIff(request, "<a\\b@x>");
    BackslashInBoundary();
  }

  lemma BackslashInBoundary()
    ensures '\\' in Smtp.Boundary("<a\\b@x>")
  {
    var id := "<a\\b@x>";
    assert id[1..] == "a\\b@x>" && Text.TrimStartMatches(id, {'<', '>'}) == "a\\b@x>";
    var inner := "a\\b@x>";
    assert inner[..|inner| - 1] == "a\\b@x";
    assert Text.TrimEndMatches(inner, {'<', '>'}) == Text.TrimEndMatches("a\\b@x", {'<', '>'}) == "a\\b@x";
    assert Smtp.Boundary(id)[14] == '\\';
  }

  lemma SentPartTexts(request: Smtp.Request)
    requires Alternative(request)
    ensures var parts := AlternativeParts(request);
            && (forall i :: 0 <= i < |parts| ==> parts[i] != [] && Mime.NoNewline(parts[i]))
            && Mime.PartTexts(parts) == [SentPart("text/plain", request.text.value), SentPart("text/html", request.html.value)]
  {
    hide PartHead, Normalized, Mime.PartText, ContentLines;
    PartTextIs("text/plain", request.text.value);
    PartTextIs("text/html", request.html.value);
    NoNewlineInPart("text/plain", request.text.value);
    NoNewlineInPart("text/html", request.html.value);
  }

  lemma NoNewlineInPart(contentType: string, content: string)
    requires ContentType(contentType)
    ensures Mime.NoNewline(PartLinesOf(contentType, content))
  {
    Mime.LinesNoNewline(content + "\r\n");
    PartHeaderPlain(contentType);
  }

  /** A part found is divided where it was joined exactly when its text, with LF line breaks, does
      not hold two CRLF in a row: those are searched for first. */
  lemma PartDividedIff(contentType: string, content: string)
    requires ContentType(contentType)
    ensures Mime.SplitHeaderBlock(SentPart(contentType, content)) == (PartHead(contentType), Normalized(content))
            <==> Text.Find(Normalized(content), "\r\n\r\n").None?
  {
    hide Text.Find, Normalized, PartHead;
    var head, body := PartHead(contentType), Normalized(content);
    var part := head + "\n\n" + body;
    BlankLineFirst(contentType, body);
    CrlfInBody(head, body);
    assert part[..|head|] == head && part[|head| + 2..] == body;
  }

  /** A text with doubled CRs before its line breaks is divided in the wrong place. */
  lemma DoubledCrsDivideWrongly()
    ensures Normalized("a\r\r\n\r\r\nb") == "a\r\n\r\nb"
    ensures Mime.SplitHeaderBlock(SentPart("text/plain", "a\r\r\n\r\r\nb")) != (PartHead("text/plain"), Normalized("a\r\r\n\r\r\nb"))
  {
    hide Text.Lines, SentPart, Mime.SplitHeaderBlock, PartHead, Text.Find, Mime.PartText, ContentLines;
    var second, third := "\r\r\n" + "b\r\n", "b\r\n";
    LinesConcat("a\r", second);
    LinesConcat("\r", third);
    OneContentLine("a\r");
    OneContentLine("\r");
    OneContentLine("b");
    var content := "a\r\r\n\r\r\nb";
    assert content + "\r\n" == "a\r" + "\r\n" + second && second == "\r" + "\r\n" + third && third == "b" + "\r\n";
    ContentLinesAre(content);
    ContentLinesAre("b");
    assert ContentLines(content) == ["a\r"] + (["\r"] + ["b"]);
    PartTextCons("a\r", ["\r"] + ["b"]);
    PartTextCons("\r", ["b"]);
    OnePart("b");
    var body := "a\r\n\r\nb";
    assert body[1..5] == "\r\n\r\n" && Text.OccursAt(body, "\r\n\r\n", 1);
    FoundSomewhere(body, "\r\n\r\n", 1);
    PartDividedIff("text/plain", content);
  }

  lemma FoundSomewhere(text: string, pat: string, i: nat)
    requires Text.OccursAt(text, pat, i)
    ensures Text.Find(text, pat).Some?
  {
  }

  lemma OnePart(line: string)
    ensures Mime.PartText([line]) == line
  {
  }

  lemma ContentLinesAre(content: string)
    ensures ContentLines(content) == Text.Lines(content + "\r\n")
  {
  }

  lemma OneContentLine(content: string)
    requires '\n' !in content
    ensures ContentLines(content) == [content]
  {
    hide Text.Find;
    Text.NotFound(content);
    FirstBreak(content, "", |content| + 1);
    var text := content + "\r\n" + "";
    assert text == content + "\r\n";
    assert text[..|content| + 1] == content + "\r" && (content + "\r")[..|content|] == content;
    assert text[|content| + 2..] == "";
    NoLines();
    assert Text.WithoutCr(content + "\r") == content;
    assert Text.Lines(text) == [content] + Text.Lines("");
  }

  lemma CrlfInBody(head: string, body: string)
    requires '\r' !in head
    ensures var part := head + "\n\n" + body;
            && (Text.Find(part, "\r\n\r\n").None? <==> Text.Find(body, "\r\n\r\n").None?)
            && (Text.Find(part, "\r\n\r\n").Some? ==> Text.Find(part, "\r\n\r\n").value > |head|)
  {
    var part, n := head + "\n\n" + body, |head| + 2;
    forall i | 0 <= i <= |body| ensures Text.OccursAt(part, "\r\n\r\n", n + i) <==> Text.OccursAt(body, "\r\n\r\n", i) {
      assert i + 4 <= |body| ==> part[n + i..n + i + 4] == body[i..i + 4];
    }
    forall i | 0 <= i < n ensures !Text.OccursAt(part, "\r\n\r\n", i) {
      assert part[i] != '\r';
      assert i + 4 <= |part| ==> part[i..i + 4][0] == part[i];
    }
    var found := Text.Find(body, "\r\n\r\n");
    if found.Some? {
      assert Text.OccursAt(part, "\r\n\r\n", n + found.value);
    }
    var at := Text.Find(part, "\r\n\r\n");
    if at.Some? {
      assert Text.OccursAt(body, "\r\n\r\n", at.value - n);
    }
  }

  /** The part's header lines have no blank line between them. */
  lemma BlankLineFirst(contentType: string, body: string)
    requires ContentType(contentType)
    ensures var head := PartHead(contentType);
            '\r' !in head && Text.Find(head + "\n\n" + body, "\n\n") == Some(|head|)
  {
    var a, b := Smtp.TypeLine(contentType), Smtp.ENCODING_LINE;
    EncodingLineUnbroken();
    TypeLineUnbroken(contentType);
    hide Smtp.TypeLine;
    TwoLinesThenBlank(a, b, body);
  }

  lemma EncodingLineUnbroken()
    ensures Text.Unbroken(Smtp.ENCODING_LINE)
  {
  }

  lemma TypeLineUnbroken(contentType: string)
    requires ContentType(contentType)
    ensures Text.Unbroken(Smtp.TypeLine(contentType))
  {
    assert Text.Unbroken("Content-Type: ");
    assert Text.Unbroken("; charset=utf-8");
    assert Text.Unbroken(contentType);
  }

  lemma TwoLinesThenBlank(a: string, b: string, body: string)
    requires '\n' !in a && '\n' !in b && b != ""
    ensures Text.Find(a + "\n" + b + "\n\n" + body, "\n\n") == Some(|a| + 1 + |b|)
  {
    var text, end := a + "\n" + b + "\n\n" + body, |a| + 1 + |b|;
    assert text[end..end + 2] == "\n\n";
    forall i | 0 <= i < end ensures !Text.OccursAt(text, "\n\n", i) {
      assert text[i..i + 2][0] == text[i] && text[i..i + 2][1] == text[i + 1];
      assert i < |a| ==> text[i] == a[i];
      assert i == |a| ==> text[i + 1] == b[0];
      assert i > |a| ==> text[i] == b[i - |a| - 1];
    }
    Text.FindIs(text, "\n\n", end);
  }

  /** And its two headers are then those that were written. */
  lemma PartHeadersReadBack(contentType: string)
    requires ContentType(contentType)
    ensures Mime.WithLines([], Text.Lines(PartHead(contentType)))
            == [Mime.Header("content-type", contentType + "; charset=utf-8"), Mime.Header("content-transfer-encoding", "8bit")]
  {
    hide Text.Lines, Mime.WithLine, Mime.WithLines, Text.Trim, Mime.AsciiLowerAll;
    var a, b := Smtp.TypeLine(contentType), Smtp.ENCODING_LINE;
    var first := Smtp.Header("Content-Type", contentType + "; charset=utf-8");
    var second := Smtp.Header("Content-Transfer-Encoding", "8bit");
    Smtp.MimeNamesPlain();
    assert a == first.name + ": " + first.value && b == second.name + ": " + second.value;
    PartHeaderPlain(contentType);
    Mime.LinesCons(a, "\n", b);
    Text.LineAlone(b);
    HeaderLineRead([], first);
    LowerNames();
    TrimmedValues(contentType);
    var one := [Mime.Header("content-type", contentType + "; charset=utf-8")];
    HeaderLineRead(one, second);
    FirstLineRead([], a, [b]);
    FirstLineRead(one, b, []);
    assert [b] + [] == [b] && Text.Lines(a + "\n" + b) == [a] + [b];
    assert Mime.WithLine([], a) == [] + one == one;
    assert Mime.WithLine(one, b) == one + [Mime.Header("content-transfer-encoding", "8bit")];
    NoLinesRead(one + [Mime.Header("content-transfer-encoding", "8bit")]);
  }

  lemma LowerNames()
    ensures Mime.AsciiLowerAll("Content-Type") == "content-type"
    ensures Mime.AsciiLowerAll("Content-Transfer-Encoding") == "content-transfer-encoding"
  {
  }

  lemma TrimmedValues(contentType: string)
    requires ContentType(contentType)
    ensures Text.Trim(contentType + "; charset=utf-8") == contentType + "; charset=utf-8" && Text.Trim("8bit") == "8bit"
  {
  }
}
