/** Messages written as trees of parts, and what the MIME walk reports of them (src/email_attachment.rs). */
module MimeTrees {
  import opened Wrappers
  import opened TextLines
  import opened HeaderParams
  import opened HeaderForms
  import opened MimeWalk
  import Mime
  import Text

  // ---- written messages ----

  /** The field that gives a part its type, and how its value is put together. */
  datatype ContentType =
    | Absent
    | Typed(at: nat, main: string, settings: seq<Setting>)

  /** A part as it is written: a multipart, one that cannot be used as such, or a leaf. */
  datatype Tree =
    | Branch(fields: seq<Field>, typed: ContentType, subtype: string, boundary: string,
             preamble: seq<string>, children: seq<Tree>, epilogue: seq<string>)
    | Broken(fields: seq<Field>, typed: ContentType, content: seq<string>)
    | Tip(fields: seq<Field>, typed: ContentType, content: seq<string>)

  const CONTENT_TYPE := "content-type"

  /** The first field named Content-Type, in any case, has this value. */
  predicate Declares(fields: seq<Field>, typed: ContentType)
  {
    if typed.Absent? then forall j :: 0 <= j < |fields| ==> Said(fields[j]).name != CONTENT_TYPE
    else
      && typed.at < |fields| && Said(fields[typed.at]).name == CONTENT_TYPE
      && (forall j :: 0 <= j < typed.at ==> Said(fields[j]).name != CONTENT_TYPE)
      && Said(fields[typed.at]).value == typed.main + SettingsText(typed.settings)
      && Tight(typed.main) && Unquoted(typed.main) && PlainSettings(typed.settings)
  }

  function TypeName(typed: ContentType): string
  {
    if typed.Absent? then "text/plain" else Mime.AsciiLowerAll(typed.main)
  }

  /** The first setting named boundary has this value. */
  predicate BoundarySet(typed: ContentType, boundary: string)
  {
    && typed.Typed?
    && exists i ::
         && 0 <= i < |typed.settings|
         && Mime.AsciiLowerAll(typed.settings[i].name) == "boundary" && typed.settings[i].value == boundary
         && forall j :: 0 <= j < i ==> Mime.AsciiLowerAll(typed.settings[j].name) != "boundary"
  }

  predicate NoBoundarySet(typed: ContentType)
  {
    typed.Typed? ==> forall j :: 0 <= j < |typed.settings| ==> Mime.AsciiLowerAll(typed.settings[j].name) != "boundary"
  }

  predicate TypeFits(tree: Tree)
  {
    if tree.Tip? then !("multipart/" <= TypeName(tree.typed))
    else if tree.Broken? then
      && "multipart/" <= TypeName(tree.typed)
      && (TypeName(tree.typed) == "multipart/" || NoBoundarySet(tree.typed) || BoundarySet(tree.typed, ""))
    else
      && TypeName(tree.typed) == "multipart/" + tree.subtype && tree.subtype != ""
      && BoundarySet(tree.typed, tree.boundary) && tree.boundary != ""
  }

  function ChildLines(tree: Tree): (r: seq<seq<string>>)
    requires tree.Branch?
    ensures |r| == |tree.children| && forall i :: 0 <= i < |r| ==> r[i] == LinesOf(tree.children[i])
    decreases tree, 0
  {
    seq(|tree.children|, i requires 0 <= i < |tree.children| => LinesOf(tree.children[i]))
  }

  function Closing(boundary: string): string
  {
    "--" + boundary + "--"
  }

  function BodyLines(tree: Tree): seq<string>
    decreases tree, 1
  {
    if tree.Branch? then
      tree.preamble + (Mime.WrittenParts(ChildLines(tree), tree.boundary) + ([Closing(tree.boundary)] + tree.epilogue))
    else tree.content
  }

  /** Header fields, an empty line, and the body. */
  function LinesOf(tree: Tree): seq<string>
    decreases tree, 2
  {
    FieldsLines(tree.fields) + ([""] + BodyLines(tree))
  }

  /** A line that ends a part, whatever follows the boundary after a space or a tab. */
  predicate IsDelimiter(line: string, boundary: string)
  {
    var start := "--" + boundary;
    start <= line &&
    var rest := line[|start|..];
    rest == "" || "--" <= rest || rest[0] == ' ' || rest[0] == '\t'
  }

  predicate NoneDelimits(lines: seq<string>, boundary: string)
  {
    forall i :: 0 <= i < |lines| ==> !IsDelimiter(lines[i], boundary)
  }

  /** The tree can be written: its lines are lines, and none within a part is the delimiter of a part
      around it. */
  predicate Writable(tree: Tree)
  {
    && tree.fields != [] && PlainFields(tree.fields) && Declares(tree.fields, tree.typed) && TypeFits(tree)
    && BodyLines(tree) != [] && AllUnbroken(BodyLines(tree))
    && (tree.Branch? ==>
          && Text.Unbroken(tree.boundary) && NoneDelimits(tree.preamble, tree.boundary)
          && forall i :: 0 <= i < |tree.children| ==>
               Writable(tree.children[i]) && NoneDelimits(LinesOf(tree.children[i]), tree.boundary))
  }

  // ---- what is to be reported of them ----

  function BodyText(tree: Tree): string
  {
    Together(BodyLines(tree), "\n")
  }

  /** Every leaf that is classified, with the numbers that lead to it, in document order. */
  function Entries(reading: Reading, tree: Tree, parent: Option<string>, body: string, section: Section): seq<Entry>
    decreases tree, 1, 0
  {
    if tree.Branch? then EntriesFrom(reading, tree, 0, section)
    else if tree.Broken? then []
    else
      var meta := reading.classify(Part(AllSaid(tree.fields), body, parent));
      if meta.Some? then [Entry(section, meta.value)] else []
  }

  function EntriesFrom(reading: Reading, tree: Tree, index: nat, section: Section): seq<Entry>
    requires tree.Branch?
    decreases tree, 0, |tree.children| - index
  {
    if index >= |tree.children| then []
    else
      var child := tree.children[index];
      Entries(reading, child, Some(tree.subtype), BodyText(child), section + [index + 1])
      + EntriesFrom(reading, tree, index + 1, section)
  }

  /** How many parts there are inside, and how deep they go. */
  function PartsIn(tree: Tree): nat
    decreases tree, 1, 0
  {
    if tree.Branch? then PartsFrom(tree, 0) else 0
  }

  function PartsFrom(tree: Tree, index: nat): nat
    requires tree.Branch?
    decreases tree, 0, |tree.children| - index
  {
    if index >= |tree.children| then 0 else 1 + PartsIn(tree.children[index]) + PartsFrom(tree, index + 1)
  }

  function DepthOf(tree: Tree): nat
    decreases tree, 1, 0
  {
    if tree.Branch? then DepthFrom(tree, 0) else 0
  }

  function DepthFrom(tree: Tree, index: nat): nat
    requires tree.Branch?
    decreases tree, 0, |tree.children| - index
  {
    if index >= |tree.children| then 0 else Max(DepthOf(tree.children[index]) + 1, DepthFrom(tree, index + 1))
  }

  // ---- the type of a part ----

  lemma TypeRead(fields: seq<Field>, typed: ContentType)
    requires Declares(fields, typed)
    ensures typed.Absent? ==> HeaderValueOf(AllSaid(fields), CONTENT_TYPE).None?
    ensures typed.Typed? ==>
              var value := HeaderValueOf(AllSaid(fields), CONTENT_TYPE);
              value.Some? && StructuredOf(value.value) == Structured(TypeName(typed), ParamsSaid(typed.settings))
  {
    hide StructuredOf, Said, PlainSettings, SettingsText, Tight, Unquoted, HeaderValueOf;
    if typed.Absent? {
      NoHeaderIs(AllSaid(fields), CONTENT_TYPE);
    } else {
      FirstHeaderIs(AllSaid(fields), CONTENT_TYPE, typed.at);
      SettingsReadBack(typed.main, typed.settings);
    }
  }

  lemma BoundaryRead(typed: ContentType, boundary: string)
    ensures BoundarySet(typed, boundary) ==> ParamValueOf(ParamsSaid(typed.settings), "boundary") == Some(boundary)
    ensures typed.Typed? && NoBoundarySet(typed) ==> ParamValueOf(ParamsSaid(typed.settings), "boundary").None?
  {
    hide ParamValueOf, Mime.AsciiLowerAll;
    if BoundarySet(typed, boundary) {
      var i :| 0 <= i < |typed.settings|
        && Mime.AsciiLowerAll(typed.settings[i].name) == "boundary" && typed.settings[i].value == boundary
        && forall j :: 0 <= j < i ==> Mime.AsciiLowerAll(typed.settings[j].name) != "boundary";
      FirstParamIs(ParamsSaid(typed.settings), "boundary", i);
    }
    if typed.Typed? && NoBoundarySet(typed) {
      NoParamIs(ParamsSaid(typed.settings), "boundary");
    }
  }

  lemma KindRead(tree: Tree)
    requires Declares(tree.fields, tree.typed) && TypeFits(tree)
    ensures var kind := KindOf(AllSaid(tree.fields));
            && (tree.Tip? ==> kind == Leaf)
            && (tree.Broken? ==> kind == Unusable)
            && (tree.Branch? ==> kind == Multipart(tree.subtype, tree.boundary))
  {
    hide Declares, StructuredOf, HeaderValueOf, ParamValueOf, BoundarySet, NoBoundarySet, Mime.AsciiLowerAll;
    var typed := tree.typed;
    TypeRead(tree.fields, typed);
    BoundaryRead(typed, if tree.Branch? then tree.boundary else "");
    if typed.Absent? {
      PlainTextIsLeaf();
      OnlyTypedHasBoundary(typed);
    }
    var name := TypeName(typed);
    assert "multipart/" <= name <==> Text.StartsWith(name, MULTIPART);
    assert tree.Branch? ==> name[|MULTIPART|..] == tree.subtype;
    assert name == "multipart/" ==> name[|MULTIPART|..] == "";
  }

  lemma PlainTextIsLeaf()
    ensures !("multipart/" <= "text/plain") && !Text.StartsWith("text/plain", MULTIPART)
  {
    assert "text/plain"[0] == 't' && "multipart/"[0] == 'm';
    assert "text/plain"[..10][0] == 't';
  }

  lemma OnlyTypedHasBoundary(typed: ContentType)
    requires typed.Absent?
    ensures forall boundary :: !BoundarySet(typed, boundary)
  {
  }

  // ---- one part ----

  lemma {:induction false} TogetherNoCr(lines: seq<string>)
    requires AllUnbroken(lines)
    ensures '\r' !in Together(lines, "\n")
    decreases |lines|
  {
    if lines != [] {
      TogetherNoCr(lines[1..]);
    }
  }

  lemma SplitWritten(fields: seq<Field>, body: seq<string>)
    requires fields != [] && PlainFields(fields) && body != [] && AllUnbroken(body)
    ensures Mime.SplitHeaderBlock(Together(FieldsLines(fields) + ([""] + body), "\n"))
            == (Together(FieldsLines(fields), "\n"), Together(body, "\n"))
  {
    hide FieldsLines, Together, PlainFields, CutFree, Text.Find, AllUnbroken;
    var head := FieldsLines(fields);
    FieldsUnbroken(fields);
    TogetherConcat(head, [""] + body, "\n");
    TogetherCons("", body, "\n");
    TogetherCutFree(false, head);
    TogetherNoCr(head);
    TogetherNoCr(body);
    var front, back := Together(head, "\n"), Together(body, "\n");
    var text := front + "\n\n" + back;
    assert Together(head + ([""] + body), "\n") == text;
    NoCrlf(text);
    LfCut(front, back);
    assert text[..|front|] == front && text[|front| + 2..] == back;
  }

  lemma HeadersRead(crlf: bool, fields: seq<Field>)
    requires fields != [] && PlainFields(fields)
    ensures Mime.WithLines([], Text.Lines(Together(FieldsLines(fields), Ending(crlf)))) == AllSaid(fields)
  {
    hide FieldsLines, Together, PlainFields, Text.Lines, Mime.WithLines;
    FieldsUnbroken(fields);
    LinesOfTogether(crlf, FieldsLines(fields));
    FieldsRead([], fields);
    assert [] + AllSaid(fields) == AllSaid(fields);
  }

  lemma PartOfTree(tree: Tree, subtype: string)
    requires Writable(tree)
    ensures PartOf(Together(LinesOf(tree), "\n"), subtype) == Part(AllSaid(tree.fields), BodyText(tree), Some(subtype))
  {
    hide Mime.SplitHeaderBlock, Together, PlainFields, Declares, TypeFits, BodyLines, Text.Lines, FieldsLines;
    SplitWritten(tree.fields, BodyLines(tree));
    HeadersRead(false, tree.fields);
  }

  // ---- the parts inside ----

  lemma DelimitsIff(line: string, boundary: string)
    requires boundary != ""
    ensures Mime.Delimits(line, boundary) <==> IsDelimiter(line, boundary)
  {
    var start := "--" + boundary;
    assert Text.StartsWith(line, start) <==> start <= line;
    if start <= line {
      var rest := line[|start|..];
      assert Text.StartsWith(rest, "--") <==> "--" <= rest;
    }
  }

  lemma NoDelimiterIff(lines: seq<string>, boundary: string)
    requires boundary != ""
    ensures Mime.NoDelimiter(lines, boundary) <==> NoneDelimits(lines, boundary)
  {
    hide Mime.Delimits, IsDelimiter;
    forall i | 0 <= i < |lines| ensures Mime.Delimits(lines[i], boundary) <==> IsDelimiter(lines[i], boundary) {
      DelimitsIff(lines[i], boundary);
    }
  }

  lemma {:induction false} PartTextIs(lines: seq<string>)
    requires lines != []
    ensures Mime.PartText(lines) == Together(lines, "\n")
    decreases |lines|
  {
    if |lines| > 1 {
      PartTextIs(lines[1..]);
    }
  }

  /** The body of a branch, as its reader sees it, whatever follows the closing delimiter. */
  ghost predicate BodyReads(tree: Tree, body: string)
    requires tree.Branch?
  {
    exists rest: seq<string> :: Text.Lines(body) ==
      tree.preamble + (Mime.WrittenParts(ChildLines(tree), tree.boundary) + ([Closing(tree.boundary)] + rest))
  }

  lemma PartsOfTree(tree: Tree, body: string)
    requires tree.Branch? && Writable(tree) && BodyReads(tree, body)
    ensures var texts := Mime.Parts(body, tree.boundary);
            && |texts| == |tree.children|
            && forall i :: 0 <= i < |texts| ==> texts[i] == Together(LinesOf(tree.children[i]), "\n")
  {
    hide Mime.PartsFrom, Mime.WrittenParts, Text.Lines, PlainFields, Declares, LinesOf, NoneDelimits, Mime.NoDelimiter, Mime.PlainLine;
    var boundary, parts := tree.boundary, ChildLines(tree);
    var rest: seq<string> :| Text.Lines(body) ==
      tree.preamble + (Mime.WrittenParts(parts, boundary) + ([Closing(boundary)] + rest));
    NoDelimiterIff(tree.preamble, boundary);
    Mime.SkipPreamble(tree.preamble, boundary, Mime.WrittenParts(parts, boundary) + ([Closing(boundary)] + rest));
    forall i | 0 <= i < |parts|
      ensures parts[i] != [] && Mime.NoDelimiter(parts[i], boundary) && Mime.PartText(parts[i]) == Together(parts[i], "\n")
    {
      assert NoneDelimits(LinesOf(tree.children[i]), boundary);
      NoDelimiterIff(parts[i], boundary);
      SomeLines(tree.children[i]);
      PartTextIs(parts[i]);
    }
    PlainBoundaryLine(boundary);
    Mime.ReadParts(parts, boundary, None, rest);
    assert [] + Mime.PartTexts(parts) == Mime.PartTexts(parts);
  }

  lemma SomeLines(tree: Tree)
    ensures LinesOf(tree) != []
  {
    hide BodyLines, FieldsLines;
  }

  lemma PlainBoundaryLine(boundary: string)
    requires Text.Unbroken(boundary)
    ensures Mime.PlainLine(boundary)
  {
    assert boundary != "" ==> boundary[|boundary| - 1] in boundary;
  }

  /** The children of a branch that is read are the branch's children. */
  lemma ChildrenOfTree(reading: Reading, tree: Tree, part: Part)
    requires tree.Branch? && Writable(tree) && part.headers == AllSaid(tree.fields) && BodyReads(tree, part.body)
    ensures var children := Children(reading, part);
            && |children| == |tree.children|
            && forall i :: 0 <= i < |children| ==>
                 children[i] == Part(AllSaid(tree.children[i].fields), BodyText(tree.children[i]), Some(tree.subtype))
  {
    hide KindOf, Mime.Parts, PartOf, LinesOf, BodyText, Declares, PlainFields, BodyReads, TypeFits;
    KindRead(tree);
    PartsOfTree(tree, part.body);
    Mime.PartsShorter(part.body, tree.boundary);
    forall i | 0 <= i < |tree.children|
      ensures PartOf(Together(LinesOf(tree.children[i]), "\n"), tree.subtype)
              == Part(AllSaid(tree.children[i].fields), BodyText(tree.children[i]), Some(tree.subtype))
    {
      PartOfTree(tree.children[i], tree.subtype);
    }
  }

  lemma BodyTextReads(tree: Tree)
    requires tree.Branch? && Writable(tree)
    ensures BodyReads(tree, BodyText(tree))
  {
    hide Together, Text.Lines, Mime.WrittenParts, ChildLines, PlainFields, Declares, TypeFits;
    var front := tree.preamble + Mime.WrittenParts(ChildLines(tree), tree.boundary) + [Closing(tree.boundary)];
    var lines := BodyLines(tree);
    assert lines == front + tree.epilogue;
    LinesOfTogether(false, lines);
    assert front[|front| - 1] != "";
    var rest := Seen(lines)[|front|..];
    assert Seen(lines) == front + rest;
    assert front + rest == tree.preamble + (Mime.WrittenParts(ChildLines(tree), tree.boundary) + ([Closing(tree.boundary)] + rest));
  }

  // ---- the whole walk ----

  /** The part that is read of a tree. */
  ghost predicate ReadAs(tree: Tree, part: Part)
  {
    part.headers == AllSaid(tree.fields) && (tree.Branch? ==> BodyReads(tree, part.body))
  }

  lemma ChildRead(reading: Reading, tree: Tree, part: Part, index: nat)
    requires tree.Branch? && Writable(tree) && ReadAs(tree, part) && index < |tree.children|
    ensures |Children(reading, part)| == |tree.children|
    ensures var child, read := tree.children[index], Children(reading, part)[index];
            && Writable(child) && ReadAs(child, read)
            && read.body == BodyText(child) && read.parent == Some(tree.subtype)
  {
    hide BodyReads, BodyText, PlainFields, Declares, TypeFits, LinesOf, BodyLines;
    ChildrenOfTree(reading, tree, part);
    if tree.children[index].Branch? {
      BodyTextReads(tree.children[index]);
    }
  }

  lemma ChildCount(reading: Reading, tree: Tree, part: Part)
    requires tree.Branch? && Writable(tree) && ReadAs(tree, part)
    ensures |Children(reading, part)| == |tree.children|
  {
    hide Writable, BodyReads;
    ChildrenOfTree(reading, tree, part);
  }

  lemma TreeKind(tree: Tree)
    requires Writable(tree)
    ensures var kind := KindOf(AllSaid(tree.fields));
            && (tree.Tip? ==> kind == Leaf)
            && (tree.Broken? ==> kind == Unusable)
            && (tree.Branch? ==> kind == Multipart(tree.subtype, tree.boundary))
  {
    hide KindOf, Declares, TypeFits;
    KindRead(tree);
  }

  lemma {:induction false} WalkOfTree(reading: Reading, tree: Tree, part: Part, section: Section)
    requires Writable(tree) && ReadAs(tree, part)
    ensures FullWalk(reading, part, section) == Entries(reading, tree, part.parent, part.body, section)
    decreases tree, 1, 0
  {
    hide KindOf, Writable, BodyReads, FullChildren, EntriesFrom;
    TreeKind(tree);
    if tree.Branch? {
      WalkOfChildren(reading, tree, part, 0, section);
    }
  }

  lemma {:induction false} WalkOfChildren(reading: Reading, tree: Tree, part: Part, index: nat, section: Section)
    requires tree.Branch? && Writable(tree) && ReadAs(tree, part)
    ensures FullChildren(reading, part, index, section) == EntriesFrom(reading, tree, index, section)
    decreases tree, 0, |tree.children| - index
  {
    hide KindOf, Writable, ReadAs, Children, FullWalk, Entries, BodyText;
    ChildCount(reading, tree, part);
    if index < |tree.children| {
      ChildRead(reading, tree, part, index);
      WalkOfTree(reading, tree.children[index], Children(reading, part)[index], section + [index + 1]);
      WalkOfChildren(reading, tree, part, index + 1, section);
    }
  }

  lemma {:induction false} ExtentOfTree(reading: Reading, tree: Tree, part: Part)
    requires Writable(tree) && ReadAs(tree, part)
    ensures ExtentOf(reading, part) == Extent(PartsIn(tree), DepthOf(tree))
    decreases tree, 1, 0
  {
    hide KindOf, Writable, BodyReads, PartsFrom, DepthFrom;
    TreeKind(tree);
    if tree.Branch? {
      ExtentOfChildren(reading, tree, part, 0);
    } else {
      assert Children(reading, part) == [];
    }
  }

  lemma {:induction false} ExtentOfChildren(reading: Reading, tree: Tree, part: Part, index: nat)
    requires tree.Branch? && Writable(tree) && ReadAs(tree, part)
    ensures ExtentFrom(reading, part, index) == Extent(PartsFrom(tree, index), DepthFrom(tree, index))
    decreases tree, 0, |tree.children| - index
  {
    hide KindOf, Writable, ReadAs, Children, ExtentOf, PartsIn, DepthOf;
    ChildCount(reading, tree, part);
    if index < |tree.children| {
      ChildRead(reading, tree, part, index);
      ExtentOfTree(reading, tree.children[index], Children(reading, part)[index]);
      ExtentOfChildren(reading, tree, part, index + 1);
    }
  }

  // ---- a whole message ----

  lemma {:induction false} WrittenConcat(a: seq<string>, b: seq<string>, ending: string)
    ensures Mime.Written(a + b, ending) == Mime.Written(a, ending) + Mime.Written(b, ending)
    decreases |a|
  {
    if a == [] {
      assert a + b == b;
    } else {
      assert (a + b)[1..] == a[1..] + b;
      WrittenConcat(a[1..], b, ending);
    }
  }

  lemma {:induction false} WrittenIsTogether(lines: seq<string>, ending: string)
    requires lines != []
    ensures Mime.Written(lines, ending) == Together(lines, ending) + ending
    decreases |lines|
  {
    if |lines| > 1 {
      WrittenIsTogether(lines[1..], ending);
      assert lines[0] + ending + (Together(lines[1..], ending) + ending) == Together(lines, ending) + ending;
    } else {
      assert Mime.Written(lines[1..], ending) == "";
    }
  }

  lemma {:induction false} WrittenNoCr(lines: seq<string>)
    requires AllUnbroken(lines)
    ensures '\r' !in Mime.Written(lines, "\n")
    decreases |lines|
  {
    if lines != [] {
      WrittenNoCr(lines[1..]);
    }
  }

  lemma BlankLine(ending: string)
    ensures Mime.Written([""], ending) == ending
  {
    assert [""][1..] == [];
  }

  lemma SplitMessage(crlf: bool, fields: seq<Field>, body: seq<string>)
    requires fields != [] && PlainFields(fields) && AllUnbroken(body)
    ensures Mime.SplitHeaderBlock(Mime.Written(FieldsLines(fields) + ([""] + body), Ending(crlf)))
            == (Together(FieldsLines(fields), Ending(crlf)), Mime.Written(body, Ending(crlf)))
  {
    hide FieldsLines, Together, PlainFields, CutFree, Text.Find, AllUnbroken, Mime.Written;
    var head, ending := FieldsLines(fields), Ending(crlf);
    FieldsUnbroken(fields);
    WrittenConcat(head, [""] + body, ending);
    WrittenConcat([""], body, ending);
    BlankLine(ending);
    WrittenIsTogether(head, ending);
    TogetherCutFree(crlf, head);
    var front, back := Together(head, ending), Mime.Written(body, ending);
    var text := front + (ending + ending) + back;
    assert Mime.Written(head + ([""] + body), ending) == text;
    if crlf {
      assert text == front + "\r\n\r\n" + back;
      CrlfCut(front, back);
      assert text[..|front|] == front && text[|front| + 4..] == back;
    } else {
      TogetherNoCr(head);
      WrittenNoCr(body);
      NoCrlf(text);
      assert text == front + "\n\n" + back;
      LfCut(front, back);
      assert text[..|front|] == front && text[|front| + 2..] == back;
    }
  }

  /** The text of a whole message. */
  function MessageText(tree: Tree, crlf: bool): string
  {
    Mime.Written(LinesOf(tree), Ending(crlf))
  }

  lemma MessageRead(tree: Tree, crlf: bool)
    requires Writable(tree)
    ensures var part := Message(MessageText(tree, crlf));
            ReadAs(tree, part) && part.body == Mime.Written(BodyLines(tree), Ending(crlf)) && part.parent.None?
  {
    hide PlainFields, Declares, TypeFits, BodyLines, Mime.SplitHeaderBlock, Mime.WithLines, FieldsLines, Together, Mime.Written, Text.Lines, AllUnbroken;
    SplitMessage(crlf, tree.fields, BodyLines(tree));
    HeadersRead(crlf, tree.fields);
    if tree.Branch? {
      MessageBodyReads(tree, crlf);
    }
  }

  lemma MessageBodyReads(tree: Tree, crlf: bool)
    requires tree.Branch? && AllUnbroken(BodyLines(tree))
    ensures BodyReads(tree, Mime.Written(BodyLines(tree), Ending(crlf)))
  {
    hide Mime.Written, Mime.WrittenParts, ChildLines, Mime.PlainLine, Text.Lines;
    var lines := BodyLines(tree);
    forall i | 0 <= i < |lines| ensures Mime.PlainLine(lines[i]) {
      PlainBoundaryLine(lines[i]);
    }
    Mime.LinesWritten(lines, Ending(crlf), "");
    var text := Mime.Written(lines, Ending(crlf));
    assert text + "" == text;
    NoLines();
    assert lines + [] == lines;
  }

  lemma NoLines()
    ensures Text.Lines("") == []
  {
  }

  /** A message written from a tree, with LF or CRLF, its headers folded or not, is walked to exactly
      the leaves of the tree that are classified, each with the numbers that lead to it; the
      attachments reported are all of them if there are fewer than 256 parts, none deeper than ten. */
  lemma WrittenMessageReported(reading: Reading, tree: Tree, crlf: bool)
    requires Writable(tree)
    ensures var root := Message(MessageText(tree, crlf));
            var expected := Entries(reading, tree, None, Mime.Written(BodyLines(tree), Ending(crlf)), []);
            && FullWalk(reading, root, []) == expected
            && (PartsIn(tree) < 256 && DepthOf(tree) <= 10 ==>
                  Walk(reading, root, [], MIME_MAX_DEPTH, MIME_MAX_PARTS, 0) == Walked(PartsIn(tree), expected))
  {
    hide Writable, Message, MessageText, FullWalk, Walk, Entries, ExtentOf, PartsIn, DepthOf, ReadAs, BodyLines, Mime.Written;
    var root := Message(MessageText(tree, crlf));
    MessageRead(tree, crlf);
    WalkOfTree(reading, tree, root, []);
    ExtentOfTree(reading, tree, root);
    WalkWithinBudget(reading, root, [], MIME_MAX_DEPTH, MIME_MAX_PARTS, 0);
  }

  // ---- any message ----

  /** Every leaf that can be reached and is classified is reported by the walk without budgets. */
  lemma {:induction false} LeavesReported(reading: Reading, part: Part, base: Section, section: Section)
    requires PartAt(reading, part, section).Some?
    ensures var leaf := PartAt(reading, part, section).value;
            KindOf(leaf.headers).Leaf? && reading.classify(leaf).Some? ==>
              Entry(base + section, reading.classify(leaf).value) in FullWalk(reading, part, base)
    decreases |section|
  {
    hide KindOf, Children, FullChildren;
    if section == [] {
      assert base + section == base;
    } else {
      var children, i := Children(reading, part), section[0] - 1;
      LeavesReported(reading, children[i], base + [section[0]], section[1..]);
      assert base + [section[0]] + section[1..] == base + section;
      OnlyMultipartsHaveChildren(reading, part);
      ChildReported(reading, part, 0, i, base);
    }
  }

  lemma OnlyMultipartsHaveChildren(reading: Reading, part: Part)
    ensures Children(reading, part) != [] ==> KindOf(part.headers).Multipart?
  {
    hide KindOf;
  }

  lemma {:induction false} ChildReported(reading: Reading, part: Part, from: nat, i: nat, base: Section)
    requires from <= i < |Children(reading, part)|
    ensures forall e :: e in FullWalk(reading, Children(reading, part)[i], base + [i + 1]) ==>
              e in FullChildren(reading, part, from, base)
    decreases i - from
  {
    hide Children, FullWalk;
    if from < i {
      ChildReported(reading, part, from + 1, i, base);
    }
  }

  /** `1` for a message that is not multipart, else the numbers with dots between them. */
  lemma SectionTextIs(section: Section, n: nat)
    ensures SectionText([]) == "1"
    ensures SectionText([n]) == Text.ShowNat(n)
    ensures section != [] ==> SectionText(section + [n]) == SectionText(section) + "." + Text.ShowNat(n)
  {
    assert (section + [n])[..|section|] == section;
  }

  // ---- parts without header fields ----

  /** A part without header fields begins with the empty line itself (section 5.1 of RFC 2046 allows
      it). The first blank line is then looked for in its text, which is never read back as the body,
      unless there is none. */
  lemma HeaderlessPartIff(text: string)
    ensures Mime.SplitHeaderBlock("\n" + text).1 == text <==> text == ""
  {
    hide Text.FindFrom;
    var whole := "\n" + text;
    assert |Mime.SplitHeaderBlock(whole).1| < |whole| - 1 || Mime.SplitHeaderBlock(whole).1 == "";
  }
}
