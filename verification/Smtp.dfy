/** Sending a message by SMTP (src/email.rs): building it, making it transparent, and what a
    receiver makes of the bytes (section 4.5.2 of RFC 5321). */
module Smtp {
  import opened Wrappers
  import Mime
  import Text

  // ---- building a message ----

  datatype Request = Request(
    from: string,
    to: seq<string>,
    cc: seq<string>,
    bcc: seq<string>,
    subject: string,
    inReplyTo: Option<string>,
    references: seq<string>,
    text: Option<string>,
    html: Option<string>)

  datatype Header = Header(name: string, value: string)

  predicate ValidRequest(request: Request)
  {
    && Text.Trim(request.from) != ""
    && (request.to != [] || request.cc != [] || request.bcc != [])
    && Text.Trim(request.subject) != ""
    && HasBody(request)
  }

  predicate HasBody(request: Request)
  {
    request.text.Some? || request.html.Some?
  }

  function Boundary(messageId: string): string
  {
    "uxc-boundary-" + Text.TrimEndMatches(Text.TrimStartMatches(messageId, {'<', '>'}), {'<', '>'})
  }

  function Optional(name: string, present: bool, value: string): seq<Header>
  {
    if present then [Header(name, value)] else []
  }

  function ContentHeaders(request: Request, messageId: string): seq<Header>
  {
    if request.text.Some? && request.html.Some? then
      [Header("Content-Type", "multipart/alternative; boundary=\"" + Boundary(messageId) + "\"")]
    else
      [Header("Content-Type", (if request.text.Some? then "text/plain" else "text/html") + "; charset=utf-8"),
       Header("Content-Transfer-Encoding", "8bit")]
  }

  function Headers(request: Request, messageId: string): seq<Header>
  {
    [Header("From", request.from), Header("To", Text.Join(request.to, ", "))]
    + Optional("Cc", request.cc != [], Text.Join(request.cc, ", "))
    + [Header("Subject", request.subject), Header("Message-ID", messageId)]
    + Optional("In-Reply-To", request.inReplyTo.Some?, if request.inReplyTo.Some? then request.inReplyTo.value else "")
    + Optional("References", request.references != [], Text.Join(request.references, " "))
    + [Header("MIME-Version", "1.0")]
    + ContentHeaders(request, messageId)
  }

  function TypeLine(contentType: string): string
  {
    "Content-Type: " + contentType + "; charset=utf-8"
  }

  const ENCODING_LINE := "Content-Transfer-Encoding: 8bit"

  function PartText(boundary: string, contentType: string, content: string): string
  {
    "--" + boundary + "\r\n" + TypeLine(contentType) + "\r\n" + ENCODING_LINE + "\r\n" + "\r\n" + content + "\r\n"
  }

  function Body(request: Request, messageId: string): string
    requires HasBody(request)
  {
    if request.text.Some? && request.html.Some? then
      PartText(Boundary(messageId), "text/plain", request.text.value)
      + PartText(Boundary(messageId), "text/html", request.html.value)
      + "--" + Boundary(messageId) + "--\r\n"
    else if request.text.Some? then request.text.value + "\r\n"
    else request.html.value + "\r\n"
  }

  /** Header lines; an empty value leaves its header out, a line break in a value is refused. */
  function HeaderBlock(headers: seq<Header>): Option<string>
  {
    if headers == [] then Some("")
    else
      var rest := HeaderBlock(headers[1..]);
      if headers[0].value == "" then rest
      else if '\r' in headers[0].value || '\n' in headers[0].value || rest.None? then None
      else Some(headers[0].name + ": " + headers[0].value + "\r\n" + rest.value)
  }

  function Message(request: Request, messageId: string): Option<string>
    requires HasBody(request)
  {
    var block := HeaderBlock(Headers(request, messageId));
    if block.None? then None else Some(block.value + "\r\n" + Body(request, messageId))
  }

  method BuildMessage(request: Request, messageId: string) returns (r: Option<string>)
    requires HasBody(request)
    ensures r == Message(request, messageId)
  {
    hide Body, Headers, Boundary;
    var headers := Headers(request, messageId);
    var message := "";
    assert headers[0..] == headers;
    assert HeaderBlock(headers).Some? ==> "" + HeaderBlock(headers).value == HeaderBlock(headers).value;
    for i := 0 to |headers|
      invariant HeaderBlock(headers) ==
                var rest := HeaderBlock(headers[i..]);
                if rest.None? then None else Some(message + rest.value)
    {
      ghost var rest := HeaderBlock(headers[i + 1..]);
      assert headers[i..][1..] == headers[i + 1..];
      var value := headers[i].value;
      if value != "" {
        if '\r' in value || '\n' in value {
          return None;
        }
        ghost var line := headers[i].name + ": " + value + "\r\n";
        assert rest.Some? ==> message + (line + rest.value) == message + line + rest.value;
        assert message + headers[i].name + ": " + value + "\r\n" == message + line;
        message := message + headers[i].name + ": " + value + "\r\n";
      }
    }
    assert message + "" == message;
    return Some(message + "\r\n" + Body(request, messageId));
  }

  // ---- transparency ----

  function Stuffed(message: string): string
  {
    Text.Replace(message, "\r\n.", "\r\n..")
  }

  /** Trailing line breaks are removed, as the terminator brings its own. */
  function Trimmed(message: string): string
  {
    Text.TrimEndMatches(message, {'\r', '\n'})
  }

  function DotStuff(message: string): string
  {
    Trimmed(Stuffed(message))
  }

  const TERMINATOR := "\r\n.\r\n"

  /** The bytes sent after the DATA command. */
  function Wire(message: string): string
  {
    DotStuff(message) + TERMINATOR
  }

  predicate Break(s: string)
  {
    |s| >= 2 && s[0] == '\r' && s[1] == '\n'
  }

  predicate DotBreak(s: string)
  {
    |s| >= 3 && s[0] == '\r' && s[1] == '\n' && s[2] == '.'
  }

  predicate DotLine(s: string)
  {
    |s| >= 3 && s[0] == '.' && s[1] == '\r' && s[2] == '\n'
  }

  /** A receiver: a line of one dot ends the message, any other leading dot is dropped. */
  function Receive(wire: string, lineStart: bool): Option<(string, string)>
    decreases |wire|
  {
    if wire == "" then None
    else if lineStart && DotLine(wire) then Some(("", wire[3..]))
    else if lineStart && wire[0] == '.' then Receive(wire[1..], false)
    else if Break(wire) then Prefixed("\r\n", Receive(wire[2..], true))
    else Prefixed([wire[0]], Receive(wire[1..], false))
  }

  function Prefixed(front: string, received: Option<(string, string)>): Option<(string, string)>
  {
    if received.None? then None else Some((front + received.value.0, received.value.1))
  }

  // ---- stuffing character by character ----

  lemma StartsIs(s: string)
    ensures Text.StartsWith(s, "\r\n.") <==> DotBreak(s)
  {
    if |s| >= 3 {
      var front := s[..3];
      assert front[0] == s[0] && front[1] == s[1] && front[2] == s[2];
      assert DotBreak(s) ==> front == "\r\n.";
    }
  }

  /** Stuffing, one character or one doubled dot at a time. */
  lemma StuffedStep(s: string)
    ensures Stuffed(s) == if s == "" then ""
                          else if DotBreak(s) then "\r\n.." + Stuffed(s[3..])
                          else [s[0]] + Stuffed(s[1..])
  {
    StartsIs(s);
  }

  lemma StuffedHead(message: string)
    ensures message == "" ==> Stuffed(message) == ""
    ensures message != "" ==> Stuffed(message) != "" && Stuffed(message)[0] == message[0]
  {
    hide Stuffed;
    StuffedStep(message);
  }

  lemma StuffedDotBreak(rest: string)
    ensures Stuffed("\r\n." + rest) == "\r\n.." + Stuffed(rest)
  {
    hide Stuffed;
    StuffedStep("\r\n." + rest);
    assert ("\r\n." + rest)[3..] == rest;
  }

  lemma StuffedChar(c: char, rest: string)
    requires !DotBreak([c] + rest)
    ensures Stuffed([c] + rest) == [c] + Stuffed(rest)
  {
    hide Stuffed;
    StuffedStep([c] + rest);
    assert ([c] + rest)[1..] == rest;
  }

  lemma StuffedBreak(rest: string)
    requires rest == "" || rest[0] != '.'
    ensures Stuffed("\r\n" + rest) == "\r\n" + Stuffed(rest)
  {
    hide Stuffed;
    assert "\r\n" + rest == ['\r'] + ("\n" + rest) && "\n" + rest == ['\n'] + rest;
    StuffedChar('\r', "\n" + rest);
    StuffedChar('\n', rest);
    assert "\r\n" + Stuffed(rest) == ['\r'] + (['\n'] + Stuffed(rest));
  }

  /** At the start of a stuffed text a line break is followed by two dots or by none. */
  predicate DoubledAt(s: string, i: nat)
    requires i <= |s|
  {
    i + 3 <= |s| && s[i] == '\r' && s[i + 1] == '\n' && s[i + 2] == '.' ==> i + 3 < |s| && s[i + 3] == '.'
  }

  lemma StuffedStart(message: string)
    ensures DoubledAt(Stuffed(message), 0)
  {
    hide Stuffed;
    StuffedStep(message);
    if message != "" && !DotBreak(message) {
      StuffedHead(message[1..]);
      if |message| >= 2 {
        StuffedStep(message[1..]);
        if !DotBreak(message[1..]) {
          StuffedHead(message[2..]);
          assert message[1..][1..] == message[2..];
        }
      }
    }
  }

  lemma {:induction false} StuffedDoubles(message: string, i: nat)
    requires i <= |Stuffed(message)|
    ensures DoubledAt(Stuffed(message), i)
    decreases |message|
  {
    hide Stuffed;
    StuffedStep(message);
    if message == "" || i == 0 {
      StuffedStart(message);
    } else if DotBreak(message) {
      if i >= 4 {
        StuffedDoubles(message[3..], i - 4);
      }
    } else {
      StuffedDoubles(message[1..], i - 1);
    }
  }

  /** In the bytes sent, the terminator stands at the very end and nowhere before. */
  lemma TerminatorOnlyAtEnd(message: string)
    ensures Text.Find(Wire(message), TERMINATOR) == Some(|Wire(message)| - 5)
  {
    hide Stuffed, Text.Find;
    var text, wire := DotStuff(message), Wire(message);
    forall i | 0 <= i < |text| ensures !Text.OccursAt(wire, TERMINATOR, i) {
      StuffedDoubles(message, i);
      NotBeforeEnd(Stuffed(message), text, i);
    }
    assert wire[|text|..|text| + 5] == TERMINATOR;
    Text.FindIs(wire, TERMINATOR, |text|);
  }

  lemma NotBeforeEnd(stuffed: string, text: string, i: nat)
    requires text <= stuffed && i < |text| && DoubledAt(stuffed, i)
    requires forall k :: |text| <= k < |stuffed| ==> stuffed[k] == '\r' || stuffed[k] == '\n'
    requires text[|text| - 1] != '\r' && text[|text| - 1] != '\n'
    ensures !Text.OccursAt(text + TERMINATOR, TERMINATOR, i)
  {
    var wire := text + TERMINATOR;
    var found := wire[i..i + 5];
    assert found[0] == wire[i] && found[1] == wire[i + 1] && found[2] == wire[i + 2] && found[3] == wire[i + 3];
  }

  // ---- receiving what was sent ----

  lemma ReceiveEnd(later: string, lineStart: bool)
    ensures Receive(TERMINATOR + later, lineStart) == Some(("\r\n", later))
  {
    var wire := TERMINATOR + later;
    assert wire[2..] == ".\r\n" + later && (".\r\n" + later)[3..] == later;
    assert Receive(".\r\n" + later, true) == Some(("", later));
    assert "\r\n" + "" == "\r\n";
  }

  lemma ReceiveDotBreak(rest: string, lineStart: bool)
    ensures Receive("\r\n.." + rest, lineStart) == Prefixed("\r\n.", Receive(rest, false))
  {
    var wire := "\r\n.." + rest;
    assert wire[2..] == ".." + rest && (".." + rest)[1..] == "." + rest && ("." + rest)[1..] == rest;
    var r := Receive(rest, false);
    assert Receive("." + rest, false) == Prefixed(".", r);
    assert Receive(".." + rest, true) == Receive("." + rest, false);
    assert r.Some? ==> "\r\n" + ("." + r.value.0) == "\r\n." + r.value.0;
  }

  lemma ReceiveBreak(rest: string, lineStart: bool)
    ensures Receive("\r\n" + rest, lineStart) == Prefixed("\r\n", Receive(rest, true))
  {
    assert ("\r\n" + rest)[2..] == rest;
  }

  lemma ReceiveChar(c: char, rest: string, lineStart: bool)
    requires lineStart ==> c != '.'
    requires !(c == '\r' && rest != "" && rest[0] == '\n')
    ensures Receive([c] + rest, lineStart) == Prefixed([c], Receive(rest, false))
  {
    assert ([c] + rest)[1..] == rest;
  }

  /** The bytes of a message that has been stuffed and is followed by the terminator. */
  function Sent(message: string, later: string): string
  {
    Stuffed(message) + (TERMINATOR + later)
  }

  lemma SentDotBreak(rest: string, later: string)
    ensures Sent("\r\n." + rest, later) == "\r\n.." + Sent(rest, later)
  {
    hide Stuffed;
    StuffedDotBreak(rest);
  }

  lemma SentBreak(rest: string, later: string)
    requires rest == "" || rest[0] != '.'
    ensures Sent("\r\n" + rest, later) == "\r\n" + Sent(rest, later)
  {
    hide Stuffed;
    StuffedBreak(rest);
  }

  lemma SentChar(c: char, rest: string, later: string)
    requires !DotBreak([c] + rest)
    ensures Sent([c] + rest, later) == [c] + Sent(rest, later)
    ensures Sent(rest, later) != "" && Sent(rest, later)[0] == if rest == "" then '\r' else rest[0]
  {
    hide Stuffed;
    StuffedChar(c, rest);
    StuffedHead(rest);
  }

  /** A stuffed message followed by the terminator is received as the message. */
  lemma {:induction false} ReceiveSent(message: string, later: string, lineStart: bool)
    requires lineStart && message != "" ==> message[0] != '.'
    ensures Receive(Sent(message, later), lineStart) == Some((message + "\r\n", later))
    decreases |message|
  {
    hide Receive, Sent, Stuffed;
    if message == "" {
      SentNothing(later);
      assert "" + "\r\n" == "\r\n";
      ReceiveEnd(later, lineStart);
    } else if DotBreak(message) {
      var rest := message[3..];
      assert message == "\r\n." + rest;
      SentDotBreak(rest, later);
      ReceiveDotBreak(Sent(rest, later), lineStart);
      ReceiveSent(rest, later, false);
      assert "\r\n." + (rest + "\r\n") == message + "\r\n";
    } else if Break(message) {
      var rest := message[2..];
      assert message == "\r\n" + rest;
      SentBreak(rest, later);
      ReceiveBreak(Sent(rest, later), lineStart);
      ReceiveSent(rest, later, true);
      assert "\r\n" + (rest + "\r\n") == message + "\r\n";
    } else {
      var rest := message[1..];
      assert message == [message[0]] + rest;
      SentChar(message[0], rest, later);
      ReceiveChar(message[0], Sent(rest, later), lineStart);
      ReceiveSent(rest, later, false);
      assert [message[0]] + (rest + "\r\n") == message + "\r\n";
    }
  }

  lemma SentNothing(later: string)
    ensures Sent("", later) == TERMINATOR + later
  {
    StuffedHead("");
  }

  /** Trimming the stuffed message is stuffing the trimmed one. */
  lemma TrimCommutes(message: string)
    ensures DotStuff(message) == Stuffed(Trimmed(message))
  {
    hide Stuffed;
    var kept := Trimmed(message);
    var cut := message[|kept|..];
    assert message == kept + cut;
    assert forall i :: 0 <= i < |cut| ==> cut[i] == message[|kept| + i];
    StuffedBeforeBreaks(kept, cut);
    StuffedHead(kept);
    StuffedLast(kept);
    TrimmedBreaks(Stuffed(kept), cut);
  }

  predicate AllBreaks(s: string)
  {
    forall i :: 0 <= i < |s| ==> s[i] == '\r' || s[i] == '\n'
  }

  lemma {:induction false} StuffedBeforeBreaks(kept: string, cut: string)
    requires AllBreaks(cut)
    ensures Stuffed(kept + cut) == Stuffed(kept) + cut
    decreases |kept| + |cut|
  {
    hide Stuffed;
    if kept == "" {
      StuffedHead("");
      assert "" + cut == cut;
      if cut != "" {
        assert cut == [cut[0]] + cut[1..] && "" + cut[1..] == cut[1..];
        StuffedChar(cut[0], cut[1..]);
        StuffedBeforeBreaks("", cut[1..]);
      }
    } else if DotBreak(kept) {
      var rest := kept[3..];
      assert kept == "\r\n." + rest && kept + cut == "\r\n." + (rest + cut);
      StuffedDotBreak(rest);
      StuffedDotBreak(rest + cut);
      StuffedBeforeBreaks(rest, cut);
      assert "\r\n.." + (Stuffed(rest) + cut) == "\r\n.." + Stuffed(rest) + cut;
    } else {
      var rest := kept[1..];
      assert kept == [kept[0]] + rest && kept + cut == [kept[0]] + (rest + cut);
      StuffedChar(kept[0], rest);
      StuffedChar(kept[0], rest + cut);
      StuffedBeforeBreaks(rest, cut);
      assert [kept[0]] + (Stuffed(rest) + cut) == [kept[0]] + Stuffed(rest) + cut;
    }
  }

  lemma {:induction false} StuffedLast(message: string)
    ensures message != "" ==> Stuffed(message) != "" && Stuffed(message)[|Stuffed(message)| - 1] == message[|message| - 1]
    decreases |message|
  {
    hide Stuffed;
    StuffedStep(message);
    if message != "" {
      var rest := if DotBreak(message) then message[3..] else message[1..];
      StuffedHead(rest);
      StuffedLast(rest);
    }
  }

  lemma {:induction false} TrimmedBreaks(kept: string, cut: string)
    requires AllBreaks(cut)
    requires kept != "" ==> kept[|kept| - 1] !in {'\r', '\n'}
    ensures Trimmed(kept + cut) == kept
    decreases |cut|
  {
    if cut != "" {
      var all := kept + cut;
      assert all[..|all| - 1] == kept + cut[..|cut| - 1];
      TrimmedBreaks(kept, cut[..|cut| - 1]);
    } else {
      assert kept + cut == kept;
    }
  }

  /** A message that does not begin with a dot arrives as it was, apart from its trailing line
      breaks, of which one CRLF is left; the bytes after the terminator are not touched. */
  lemma Transparent(message: string, later: string)
    requires message != "" ==> message[0] != '.'
    ensures Receive(Wire(message) + later, true) == Some((Trimmed(message) + "\r\n", later))
  {
    hide Receive, Stuffed, Trimmed;
    TrimCommutes(message);
    TrimmedHead(message);
    ReceiveSent(Trimmed(message), later, true);
    assert Wire(message) + later == Sent(Trimmed(message), later);
  }

  /** Only line breaks are doubled, so a dot at the very start would be lost: a message arrives
      unchanged exactly when it does not begin with one. */
  lemma TransparentIff(message: string, later: string)
    ensures Receive(Wire(message) + later, true) == Some((Trimmed(message) + "\r\n", later))
            <==> (message == "" || message[0] != '.')
  {
    if message != "" && message[0] == '.' {
      FirstDotLost(message, later);
    } else {
      Transparent(message, later);
    }
  }

  lemma FirstDotLost(message: string, later: string)
    requires message != "" && message[0] == '.'
    ensures Receive(Wire(message) + later, true) != Some((Trimmed(message) + "\r\n", later))
  {
    hide Receive, Stuffed, Trimmed;
    TrimCommutes(message);
    TrimmedKeepsDot(message);
    var kept := Trimmed(message);
    var rest := kept[1..];
    assert kept == "." + rest;
    SentChar('.', rest, later);
    assert Wire(message) + later == "." + Sent(rest, later);
    ReceiveFirstDot(Sent(rest, later));
    ReceiveSent(rest, later, false);
  }

  /** The dot of ".x" does not arrive. */
  lemma LeadingDotLost()
    ensures Receive(Wire(".x"), true) == Some(("x\r\n", ""))
  {
    hide Receive, Stuffed, Trimmed;
    TrimCommutes(".x");
    TrimmedIs(".x");
    SentChar('.', "x", "");
    assert ".x" == "." + "x";
    assert Wire(".x") == "." + Sent("x", "") by {
      assert Stuffed(".x") + TERMINATOR == Stuffed(".x") + (TERMINATOR + "");
    }
    ReceiveFirstDot(Sent("x", ""));
    ReceiveSent("x", "", false);
    assert "x" + "\r\n" == "x\r\n";
  }

  lemma TrimmedIs(message: string)
    requires message != "" && message[|message| - 1] != '\r' && message[|message| - 1] != '\n'
    ensures Trimmed(message) == message
  {
  }

  lemma TrimmedKeepsDot(message: string)
    requires message != "" && message[0] == '.'
    ensures Trimmed(message) != "" && Trimmed(message)[0] == '.'
  {
  }

  lemma ReceiveFirstDot(rest: string)
    ensures Receive("." + rest, true) == if Break(rest) then Some(("", rest[2..])) else Receive(rest, false)
  {
    var wire := "." + rest;
    assert wire[1..] == rest && (Break(rest) ==> wire[3..] == rest[2..]);
    assert DotLine(wire) <==> Break(rest);
  }

  lemma TrimmedHead(message: string)
    ensures Trimmed(message) != "" ==> message != "" && Trimmed(message)[0] == message[0]
  {
  }

  // ---- built messages ----

  /** A header name of letters and hyphens. */
  predicate PlainName(name: string)
  {
    name != "" && forall i :: 0 <= i < |name| ==> name[i] == '-' || 'A' <= name[i] <= 'Z' || 'a' <= name[i] <= 'z'
  }

  predicate PlainNames(headers: seq<Header>)
  {
    forall i :: 0 <= i < |headers| ==> PlainName(headers[i].name)
  }

  lemma HeaderNamesPlain(request: Request, messageId: string)
    ensures PlainNames(Headers(request, messageId))
  {
    hide Boundary, Text.Join, PlainName;
    NamesPlain();
    MimeNamesPlain();
    var headers := Headers(request, messageId);
    forall h | h in headers ensures PlainName(h.name) {}
    assert forall i :: 0 <= i < |headers| ==> headers[i] in headers;
  }

  lemma NamesPlain()
    ensures PlainName("From") && PlainName("To") && PlainName("Cc") && PlainName("Subject") && PlainName("Message-ID")
    ensures PlainName("In-Reply-To") && PlainName("References")
  {
  }

  lemma MimeNamesPlain()
    ensures PlainName("MIME-Version") && PlainName("Content-Type") && PlainName("Content-Transfer-Encoding")
  {
  }

  lemma {:induction false} BlockStart(headers: seq<Header>)
    requires HeaderBlock(headers).Some? && PlainNames(headers)
    ensures HeaderBlock(headers).value != "" ==> HeaderBlock(headers).value[0] != '.'
    decreases |headers|
  {
    if headers != [] && headers[0].value == "" {
      BlockStart(headers[1..]);
    }
  }

  /** Every message that is built is received as it was built. */
  lemma BuiltMessageTransparent(request: Request, messageId: string, later: string)
    requires ValidRequest(request) && Message(request, messageId).Some?
    ensures var message := Message(request, messageId).value;
            && Text.Find(Wire(message), TERMINATOR) == Some(|Wire(message)| - 5)
            && Receive(Wire(message) + later, true) == Some((Trimmed(message) + "\r\n", later))
  {
    hide Wire, Receive, HeaderBlock, Body, Text.Find;
    var message := Message(request, messageId).value;
    TerminatorOnlyAtEnd(message);
    HeaderNamesPlain(request, messageId);
    hide Headers, PlainNames;
    BlockStart(Headers(request, messageId));
    Transparent(message, later);
  }

  // ---- header injection ----

  /** CR stands only before LF, LF only after CR and never at the start, and no two line breaks
      touch; a non-empty block ends with a line break. */
  predicate WholeLines(block: string)
  {
    && (block != "" ==> |block| >= 2 && block[|block| - 2..] == "\r\n" && block[0] != '\r')
    && (forall i :: 0 <= i && i + 2 < |block| && block[i] == '\r' ==> block[i + 2] != '\r')
  }

  lemma {:induction false} BlockWholeLines(headers: seq<Header>)
    requires HeaderBlock(headers).Some? && PlainNames(headers)
    ensures WholeLines(HeaderBlock(headers).value)
    decreases |headers|
  {
    if headers != [] {
      BlockWholeLines(headers[1..]);
      if headers[0].value != "" {
        var line := headers[0].name + ": " + headers[0].value;
        assert '\r' !in headers[0].name;
        assert '\r' !in line;
        LineInFront(line, HeaderBlock(headers[1..]).value);
        assert HeaderBlock(headers).value == line + "\r\n" + HeaderBlock(headers[1..]).value;
      }
    }
  }

  lemma LineInFront(line: string, rest: string)
    requires '\r' !in line && line != "" && WholeLines(rest)
    ensures WholeLines(line + "\r\n" + rest)
  {
    var block := line + "\r\n" + rest;
    var n := |line|;
    assert forall i :: 0 <= i < n ==> block[i] in line;
    forall i | 0 <= i && i + 2 < |block| && block[i] == '\r' ensures block[i + 2] != '\r' {
      assert i > n + 1 ==> block[i] == rest[i - n - 2] && block[i + 2] == rest[i - n];
      assert i == n ==> block[i + 2] == rest[0];
    }
    assert block[0] in line;
    assert block[|block| - 2..] == if rest == "" then "\r\n" else rest[|rest| - 2..];
  }

  /** The first blank line after whole lines is the empty line put after them. */
  lemma BlankLineAfter(block: string, body: string)
    requires WholeLines(block) && block != ""
    ensures Text.Find(block + "\r\n" + body, "\r\n\r\n") == Some(|block| - 2)
    ensures (block + "\r\n" + body)[|block| + 2..] == body
  {
    hide Text.Find;
    var message := block + "\r\n" + body;
    forall i | 0 <= i < |block| - 2 ensures !Text.OccursAt(message, "\r\n\r\n", i) {
      var found := message[i..i + 4];
      assert found[0] == message[i] == block[i] && found[2] == message[i + 2] == block[i + 2];
    }
    assert block[|block| - 2..][0] == block[|block| - 2] && block[|block| - 2..][1] == block[|block| - 1];
    assert message[|block| - 2..|block| + 2] == "\r\n\r\n";
    Text.FindIs(message, "\r\n\r\n", |block| - 2);
  }

  /** Whatever its header values and its text hold, a built message is split at its first blank
      line into exactly the header block and the body that were put together. */
  lemma BuiltMessageSplits(request: Request, messageId: string)
    requires HasBody(request) && Message(request, messageId).Some?
    ensures var block := HeaderBlock(Headers(request, messageId)).value;
            var message := Message(request, messageId).value;
            && |block| >= 2
            && Mime.SplitHeaderBlock(message) == (block[..|block| - 2], Body(request, messageId))
  {
    hide Body, HeaderBlock, Text.Find, Headers, PlainNames;
    var headers := Headers(request, messageId);
    HeaderNamesPlain(request, messageId);
    BlockWholeLines(headers);
    VersionKept(request, messageId);
    var block := HeaderBlock(headers).value;
    BlankLineAfter(block, Body(request, messageId));
    assert (block + "\r\n" + Body(request, messageId))[..|block| - 2] == block[..|block| - 2];
  }

  lemma {:induction false} BlockNotEmpty(headers: seq<Header>, i: nat)
    requires HeaderBlock(headers).Some? && i < |headers| && headers[i].value != ""
    ensures HeaderBlock(headers).value != ""
    decreases i
  {
    if headers[0].value == "" {
      BlockNotEmpty(headers[1..], i - 1);
    }
  }

  /** The MIME-Version header is always there. */
  lemma VersionKept(request: Request, messageId: string)
    requires HeaderBlock(Headers(request, messageId)).Some?
    ensures HeaderBlock(Headers(request, messageId)).value != ""
  {
    var headers := Headers(request, messageId);
    var i := |headers| - if request.text.Some? && request.html.Some? then 2 else 3;
    assert headers[i] == Header("MIME-Version", "1.0");
    BlockNotEmpty(headers, i);
  }

  // ---- messages of one text ----

  /** What a request with exactly one of text and html is to bring. */
  function OnlyText(request: Request): string
    requires request.text.Some? != request.html.Some?
  {
    if request.text.Some? then request.text.value else request.html.value
  }

  /** A message of one text has that text, and one line break, after its first blank line. */
  lemma SingleTextSent(request: Request, messageId: string)
    requires request.text.Some? != request.html.Some? && Message(request, messageId).Some?
    ensures Mime.SplitHeaderBlock(Message(request, messageId).value).1 == OnlyText(request) + "\r\n"
  {
    hide Headers, HeaderBlock, Mime.SplitHeaderBlock;
    BuiltMessageSplits(request, messageId);
  }

  /** No two line feeds touch, and the last line is not empty. */
  predicate NoEmptyLine(block: string)
  {
    && (forall i :: 0 <= i && i + 1 < |block| && block[i] == '\n' ==> block[i + 1] != '\n')
    && (block != "" ==> |block| >= 3 && block[|block| - 3] != '\r' && block[|block| - 3] != '\n' && block[0] != '\n')
  }

  lemma {:induction false} BlockNoEmptyLine(headers: seq<Header>)
    requires HeaderBlock(headers).Some? && PlainNames(headers)
    ensures NoEmptyLine(HeaderBlock(headers).value)
    decreases |headers|
  {
    if headers != [] {
      BlockNoEmptyLine(headers[1..]);
      if headers[0].value != "" {
        var value := headers[0].value;
        var line := headers[0].name + ": " + value;
        assert '\r' !in headers[0].name && '\n' !in headers[0].name;
        assert line[|line| - 1] == value[|value| - 1] && value[|value| - 1] in value;
        LineNotEmpty(line, HeaderBlock(headers[1..]).value);
        assert HeaderBlock(headers).value == line + "\r\n" + HeaderBlock(headers[1..]).value;
      }
    }
  }

  lemma LineNotEmpty(line: string, rest: string)
    requires '\r' !in line && '\n' !in line && line != "" && NoEmptyLine(rest)
    ensures NoEmptyLine(line + "\r\n" + rest)
  {
    var block := line + "\r\n" + rest;
    var n := |line|;
    assert forall i :: 0 <= i < n ==> block[i] in line;
    forall i | 0 <= i && i + 1 < |block| && block[i] == '\n' ensures block[i + 1] != '\n' {
      assert i > n + 1 ==> block[i] == rest[i - n - 2] && block[i + 1] == rest[i - n - 1];
      assert i == n + 1 ==> block[i + 1] == rest[0];
    }
    assert block[|block| - 3] == if rest == "" then line[n - 1] else rest[|rest| - 3];
    assert line[n - 1] in line && block[0] in line;
  }

  /** Whole lines without an empty one among them are not divided. */
  lemma NoBlankLine(block: string)
    requires WholeLines(block) && NoEmptyLine(block)
    ensures Mime.SplitHeaderBlock(block) == (block, "")
  {
    hide Text.Find;
    forall i | 0 <= i ensures !Text.OccursAt(block, "\r\n\r\n", i) && !Text.OccursAt(block, "\n\n", i) {
      if i + 4 <= |block| {
        var window := block[i..i + 4];
        assert window[0] == block[i] && window[2] == block[i + 2];
      }
      if i + 2 <= |block| {
        var window := block[i..i + 2];
        assert window[0] == block[i] && window[1] == block[i + 1];
      }
    }
  }

  /** The text of a message of one text is what the receiver finds after the first blank line, less
      its trailing line breaks, with one line break after it; of a text of nothing but line breaks
      there is nothing left, the blank line included. */
  lemma SingleTextArrives(request: Request, messageId: string, later: string)
    requires ValidRequest(request) && Message(request, messageId).Some? && request.text.Some? != request.html.Some?
    ensures var received := Receive(Wire(Message(request, messageId).value) + later, true);
            var kept := Text.TrimEndMatches(OnlyText(request), {'\r', '\n'});
            && received.Some? && received.value.1 == later
            && Mime.SplitHeaderBlock(received.value.0).1 == if kept == "" then "" else kept + "\r\n"
  {
    hide Receive, Wire, Headers, HeaderBlock, Mime.SplitHeaderBlock, PlainNames, WholeLines, NoEmptyLine, Text.TrimEndMatches, Trimmed, Body;
    BuiltMessageTransparent(request, messageId, later);
    SingleTextBody(request, messageId);
    var headers := Headers(request, messageId);
    HeaderNamesPlain(request, messageId);
    BlockWholeLines(headers);
    BlockNoEmptyLine(headers);
    VersionKept(request, messageId);
    SingleTextTrimmed(HeaderBlock(headers).value, OnlyText(request));
  }

  lemma SingleTextBody(request: Request, messageId: string)
    requires HasBody(request) && request.text.Some? != request.html.Some?
    ensures Body(request, messageId) == OnlyText(request) + "\r\n"
  {
  }

  lemma SingleTextTrimmed(block: string, content: string)
    requires WholeLines(block) && NoEmptyLine(block) && block != ""
    ensures var received := Trimmed(block + "\r\n" + (content + "\r\n")) + "\r\n";
            var kept := Text.TrimEndMatches(content, {'\r', '\n'});
            Mime.SplitHeaderBlock(received).1 == if kept == "" then "" else kept + "\r\n"
  {
    hide Text.TrimEndMatches, Trimmed, Mime.SplitHeaderBlock, WholeLines, NoEmptyLine;
    var kept := Text.TrimEndMatches(content, {'\r', '\n'});
    var cut := content[|kept|..] + "\r\n";
    assert content == kept + content[|kept|..];
    assert block + "\r\n" + (content + "\r\n") == block + "\r\n" + kept + cut;
    if kept == "" {
      assert block + "\r\n" + kept == block + "\r\n";
      TrimmedToLines(block, cut);
      NoBlankLine(block);
    } else {
      var front := block + "\r\n" + kept;
      assert front[|front| - 1] == kept[|kept| - 1];
      TrimmedBreaks(front, cut);
      TextAfterBlank(block, kept);
    }
  }

  lemma TrimmedToLines(block: string, cut: string)
    requires WholeLines(block) && NoEmptyLine(block) && block != "" && AllBreaks(cut)
    ensures Trimmed(block + "\r\n" + cut) + "\r\n" == block
  {
    hide Trimmed;
    var lines := block[..|block| - 2];
    assert block == lines + "\r\n" && lines[|lines| - 1] == block[|block| - 3];
    assert block + "\r\n" + cut == lines + ("\r\n\r\n" + cut);
    TrimmedBreaks(lines, "\r\n\r\n" + cut);
  }

  lemma TextAfterBlank(block: string, kept: string)
    requires WholeLines(block) && block != ""
    ensures Mime.SplitHeaderBlock(block + "\r\n" + kept + "\r\n").1 == kept + "\r\n"
  {
    hide Mime.SplitHeaderBlock, WholeLines, Text.Find;
    BlankLineAfter(block, kept + "\r\n");
    assert block + "\r\n" + kept + "\r\n" == block + "\r\n" + (kept + "\r\n");
    SplitAtBlank(block + "\r\n" + (kept + "\r\n"), |block| - 2);
  }

  lemma SplitAtBlank(text: string, at: nat)
    requires Text.Find(text, "\r\n\r\n") == Some(at)
    ensures at + 4 <= |text| && Mime.SplitHeaderBlock(text).1 == text[at + 4..]
  {
  }

  // ---- refusals ----

  predicate HasBreak(s: string)
  {
    '\r' in s || '\n' in s
  }

  predicate AnyBreak(headers: seq<Header>)
  {
    exists h :: h in headers && HasBreak(h.value)
  }

  lemma AnyBreakConcat(a: seq<Header>, b: seq<Header>)
    ensures AnyBreak(a + b) <==> AnyBreak(a) || AnyBreak(b)
  {
    hide HasBreak;
    if AnyBreak(a) {
      var h :| h in a && HasBreak(h.value);
      assert h in a + b;
    }
    if AnyBreak(b) {
      var h :| h in b && HasBreak(h.value);
      assert h in a + b;
    }
  }

  lemma AnyBreakOne(header: Header)
    ensures AnyBreak([header]) <==> HasBreak(header.value)
  {
    hide HasBreak;
    assert header in [header];
  }

  lemma {:induction false} BlockRefused(headers: seq<Header>)
    ensures HeaderBlock(headers).None? <==> AnyBreak(headers)
    decreases |headers|
  {
    hide AnyBreak;
    if headers != [] {
      BlockRefused(headers[1..]);
      assert headers == [headers[0]] + headers[1..];
      AnyBreakConcat([headers[0]], headers[1..]);
      AnyBreakOne(headers[0]);
    } else {
      NoHeadersUnbroken();
    }
  }

  lemma NoHeadersUnbroken()
    ensures !AnyBreak([])
  {
  }

  lemma {:induction false} JoinHasBreak(parts: seq<string>, separator: string)
    requires !HasBreak(separator)
    ensures HasBreak(Text.Join(parts, separator)) <==> exists part :: part in parts && HasBreak(part)
    decreases |parts|
  {
    if |parts| > 1 {
      JoinHasBreak(parts[1..], separator);
      assert parts == [parts[0]] + parts[1..];
      assert HasBreak(parts[0]) ==> parts[0] in parts;
    } else if |parts| == 1 {
      assert parts == [parts[0]];
      assert HasBreak(parts[0]) ==> parts[0] in parts;
    }
  }

  lemma {:induction false} TrimStartIsInside(s: string, set_: set<char>)
    ensures forall c :: c in Text.TrimStartMatches(s, set_) ==> c in s
    decreases |s|
  {
    if s != "" && s[0] in set_ {
      TrimStartIsInside(s[1..], set_);
    }
  }

  lemma BoundaryUnbroken(messageId: string)
    requires !HasBreak(messageId)
    ensures !HasBreak(Boundary(messageId))
  {
    TrimStartIsInside(messageId, {'<', '>'});
  }

  /** Which parts of a request become header values. */
  predicate BreakInHeaders(request: Request, messageId: string)
  {
    || HasBreak(request.from) || HasBreak(request.subject) || HasBreak(messageId)
    || (request.inReplyTo.Some? && HasBreak(request.inReplyTo.value))
    || (exists address :: address in request.to && HasBreak(address))
    || (exists address :: address in request.cc && HasBreak(address))
    || (exists id :: id in request.references && HasBreak(id))
  }

  /** A request is refused exactly when a line break would reach a header, wherever it stands in the
      sender, a recipient shown, the subject or an identifier; those of bcc and the texts do not matter. */
  lemma RefusedIff(request: Request, messageId: string)
    requires HasBody(request)
    ensures Message(request, messageId).None? <==> BreakInHeaders(request, messageId)
  {
    hide Text.Join, Boundary, HasBreak, HeaderBlock, AnyBreak, Optional, ContentHeaders;
    BlockRefused(Headers(request, messageId));
    NothingUnbroken();
    JoinHasBreak(request.to, ", ");
    JoinHasBreak(request.cc, ", ");
    JoinHasBreak(request.references, " ");
    HeadersBreak(request, messageId);
    assert request.cc == [] ==> !exists address :: address in request.cc && HasBreak(address);
    assert request.references == [] ==> !exists id :: id in request.references && HasBreak(id);
  }

  lemma NothingUnbroken()
    ensures !HasBreak(", ") && !HasBreak(" ") && !HasBreak("1.0")
  {
  }

  lemma OptionalBreak(name: string, present: bool, value: string)
    ensures AnyBreak(Optional(name, present, value)) <==> present && HasBreak(value)
  {
    hide AnyBreak, HasBreak;
    AnyBreakOne(Header(name, value));
    NoHeadersUnbroken();
  }

  lemma HeadersBreak(request: Request, messageId: string)
    ensures AnyBreak(Headers(request, messageId)) <==>
            || HasBreak(request.from) || HasBreak(Text.Join(request.to, ", ")) || HasBreak(request.subject) || HasBreak(messageId)
            || (request.cc != [] && HasBreak(Text.Join(request.cc, ", ")))
            || (request.inReplyTo.Some? && HasBreak(request.inReplyTo.value))
            || (request.references != [] && HasBreak(Text.Join(request.references, " ")))
  {
    hide Text.Join, Boundary, HasBreak, AnyBreak, Optional, ContentHeaders;
    var addresses := [Header("From", request.from), Header("To", Text.Join(request.to, ", "))];
    var cc := Optional("Cc", request.cc != [], Text.Join(request.cc, ", "));
    var subject := [Header("Subject", request.subject), Header("Message-ID", messageId)];
    var replied := if request.inReplyTo.Some? then request.inReplyTo.value else "";
    var reply := Optional("In-Reply-To", request.inReplyTo.Some?, replied);
    var references := Optional("References", request.references != [], Text.Join(request.references, " "));
    var version := [Header("MIME-Version", "1.0")];
    var content := ContentHeaders(request, messageId);
    AnyBreakConcat(addresses + cc + subject + reply + references + version, content);
    AnyBreakConcat(addresses + cc + subject + reply + references, version);
    AnyBreakConcat(addresses + cc + subject + reply, references);
    AnyBreakConcat(addresses + cc + subject, reply);
    AnyBreakConcat(addresses + cc, subject);
    AnyBreakConcat(addresses, cc);
    TwoBreak(addresses[0], addresses[1]);
    TwoBreak(subject[0], subject[1]);
    AnyBreakOne(version[0]);
    NothingUnbroken();
    OptionalBreak("Cc", request.cc != [], Text.Join(request.cc, ", "));
    OptionalBreak("In-Reply-To", request.inReplyTo.Some?, replied);
    OptionalBreak("References", request.references != [], Text.Join(request.references, " "));
    if !HasBreak(messageId) {
      ContentUnbroken(request, messageId);
    }
  }

  lemma TwoBreak(first: Header, second: Header)
    ensures AnyBreak([first, second]) <==> HasBreak(first.value) || HasBreak(second.value)
  {
    hide AnyBreak, HasBreak;
    assert [first, second] == [first] + [second];
    AnyBreakConcat([first], [second]);
    AnyBreakOne(first);
    AnyBreakOne(second);
  }

  lemma ContentUnbroken(request: Request, messageId: string)
    requires !HasBreak(messageId)
    ensures !AnyBreak(ContentHeaders(request, messageId))
  {
    hide Boundary, HasBreak, AnyBreak;
    BoundaryUnbroken(messageId);
    ContentValuesUnbroken(Boundary(messageId));
    AnyBreakOne(ContentHeaders(request, messageId)[0]);
    if !(request.text.Some? && request.html.Some?) {
      TwoBreak(ContentHeaders(request, messageId)[0], ContentHeaders(request, messageId)[1]);
    }
  }

  lemma ConcatUnbroken(a: string, b: string)
    requires !HasBreak(a) && !HasBreak(b)
    ensures !HasBreak(a + b)
  {
  }

  lemma MultipartUnbroken()
    ensures !HasBreak("multipart/alternative; boundary=\"") && !HasBreak("\"")
  {
  }

  lemma SingleUnbroken()
    ensures !HasBreak("8bit") && !HasBreak("text/plain") && !HasBreak("text/html") && !HasBreak("; charset=utf-8")
  {
  }

  lemma ContentValuesUnbroken(boundary: string)
    requires !HasBreak(boundary)
    ensures !HasBreak("multipart/alternative; boundary=\"" + boundary + "\"")
    ensures !HasBreak("text/plain" + "; charset=utf-8") && !HasBreak("text/html" + "; charset=utf-8") && !HasBreak("8bit")
  {
    hide HasBreak;
    MultipartUnbroken();
    SingleUnbroken();
    ConcatUnbroken("multipart/alternative; boundary=\"", boundary);
    ConcatUnbroken("multipart/alternative; boundary=\"" + boundary, "\"");
    ConcatUnbroken("text/plain", "; charset=utf-8");
    ConcatUnbroken("text/html", "; charset=utf-8");
  }

  /** The boundary is made of the identifier without the brackets around it. */
  lemma BoundaryOfId(core: string)
    requires core != "" && core[0] !in {'<', '>'} && core[|core| - 1] !in {'<', '>'}
    ensures Boundary("<" + core + ">") == "uxc-boundary-" + core && Boundary(core) == "uxc-boundary-" + core
  {
    var id, brackets := "<" + core + ">", {'<', '>'};
    assert id[1..] == core + ">" && (core + ">")[..|core|] == core;
    assert Text.TrimStartMatches(core + ">", brackets) == core + ">";
    assert Text.TrimStartMatches(id, brackets) == core + ">";
    assert Text.TrimEndMatches(core, brackets) == core;
    assert Text.TrimEndMatches(core + ">", brackets) == core;
  }
}
