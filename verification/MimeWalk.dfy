/** The bounded walk over a message's MIME parts (src/email_attachment.rs). */
module MimeWalk {
  import opened Wrappers
  import opened HeaderParams
  import Mime
  import Text

  // The walk has a depth and a part budget. Each part reported carries its section number, the child
  // indices that lead to it from the message (section 6.4.5 of RFC 3501).

  const MIME_MAX_DEPTH: nat := 10

  const MIME_MAX_PARTS: nat := 256

  /** A message or part as it is read: its headers, its body, and the subtype of its parent. */
  datatype Part = Part(headers: seq<Mime.Header>, body: string, parent: Option<string>)

  /** How leaves are classified; the metadata is left as text. */
  datatype Reading = Reading(classify: Part -> Option<string>)

  type Section = seq<nat>

  datatype Entry = Entry(section: Section, meta: string)

  // ---- parts and their children ----

  function PartOf(text: string, subtype: string): Part
  {
    var (block, body) := Mime.SplitHeaderBlock(text);
    Part(Mime.WithLines([], Text.Lines(block)), body, Some(subtype))
  }

  /** The parts of a multipart part. Each has a shorter body than the part itself, which is why a
      walk without budgets ends. */
  function Children(reading: Reading, part: Part): (r: seq<Part>)
    ensures forall i :: 0 <= i < |r| ==> |r[i].body| < |part.body|
  {
    match KindOf(part.headers)
    case Multipart(subtype, boundary) =>
      Mime.PartsShorter(part.body, boundary);
      var texts := Mime.Parts(part.body, boundary);
      seq(|texts|, i requires 0 <= i < |texts| => PartOf(texts[i], subtype))
    case _ => []
  }

  function OwnEntry(reading: Reading, part: Part, section: Section): seq<Entry>
  {
    var meta := reading.classify(part);
    if KindOf(part.headers).Leaf? && meta.Some? then [Entry(section, meta.value)] else []
  }

  // ---- the bounded walk ----

  /** Parts seen so far and entries reported. The budgets are parameters here; the source's are
      MIME_MAX_DEPTH and MIME_MAX_PARTS. */
  datatype Walked = Walked(seen: nat, entries: seq<Entry>)

  function Walk(reading: Reading, part: Part, section: Section, room: int, maxParts: nat, seen: nat): Walked
    decreases room + 1, 0, 0
  {
    if room < 0 || seen >= maxParts then Walked(seen, [])
    else if KindOf(part.headers).Multipart? then
      WalkChildren(reading, part, 0, section, room - 1, maxParts, seen)
    else Walked(seen, OwnEntry(reading, part, section))
  }

  /** The children of `part` from `index` on; `room` is what is left of the depth budget for each. */
  function WalkChildren(reading: Reading, part: Part, index: nat, section: Section,
                        room: int, maxParts: nat, seen: nat): Walked
    decreases room + 1, 2, |Children(reading, part)| - index
  {
    var children := Children(reading, part);
    if index >= |children| || seen >= maxParts then Walked(seen, [])
    else
      var first := WalkChild(reading, children[index], section + [index + 1], room, maxParts, seen);
      var rest := WalkChildren(reading, part, index + 1, section, room, maxParts, first.seen);
      Walked(rest.seen, first.entries + rest.entries)
  }

  /** A child counts as seen even where the depth budget keeps the walk from entering it. */
  function WalkChild(reading: Reading, child: Part, section: Section, room: int, maxParts: nat, seen: nat): Walked
    decreases room + 1, 1, 0
  {
    if room < 0 then Walked(seen + 1, []) else Walk(reading, child, section, room, maxParts, seen + 1)
  }

  class MimeWalker {
    const reading: Reading
    var partsSeen: nat
    var out: seq<Entry>

    constructor (reading: Reading)
      ensures this.reading == reading && partsSeen == 0 && out == []
    {
      this.reading, partsSeen, out := reading, 0, [];
    }

    method WalkMimePart(section: Section, part: Part, depth: nat)
      modifies this`partsSeen, this`out
      ensures var walked := Walk(reading, part, section, MIME_MAX_DEPTH - depth, MIME_MAX_PARTS, old(partsSeen));
              partsSeen == walked.seen && out == old(out) + walked.entries
      decreases MIME_MAX_DEPTH + 1 - depth
    {
      hide Walk, WalkChildren, Children, Continues, OwnEntry;
      WalkSimple(reading, part, section, MIME_MAX_DEPTH - depth, MIME_MAX_PARTS, partsSeen, out);
      if depth > MIME_MAX_DEPTH || partsSeen >= MIME_MAX_PARTS {
        return;
      }
      if KindOf(part.headers).Multipart? {
        var children := Children(reading, part);
        ghost var room := MIME_MAX_DEPTH - depth - 1;
        ghost var all := WalkChildren(reading, part, 0, section, room, MIME_MAX_PARTS, partsSeen);
        ghost var out' := out + all.entries;
        WalkMultipart(reading, part, section, room + 1, MIME_MAX_PARTS, partsSeen);
        WalkStart(reading, part, section, room, partsSeen, out);
        for i := 0 to |children|
          invariant Continues(reading, part, i, section, room, partsSeen, out, all.seen, out')
        {
          if partsSeen >= MIME_MAX_PARTS {
            WalkEnd(reading, part, i, section, room, partsSeen, out, all.seen, out');
            return;
          }
          WalkStep(reading, part, i, section, room, partsSeen, out, all.seen, out');
          partsSeen := partsSeen + 1;
          WalkMimePart(section + [i + 1], children[i], depth + 1);
        }
        WalkEnd(reading, part, |children|, section, room, partsSeen, out, all.seen, out');
      } else {
        out := out + OwnEntry(reading, part, section);
      }
    }

    /** Metadata of a whole message. */
    method ParseMimeAttachments(text: string) returns (entries: seq<Entry>)
      requires partsSeen == 0 && out == []
      modifies this`partsSeen, this`out
      ensures entries == Walk(reading, Message(text), [], MIME_MAX_DEPTH, MIME_MAX_PARTS, 0).entries
    {
      hide Walk, Mime.SplitHeaderBlock, Mime.WithLines, Text.Lines;
      var (block, body) := Mime.SplitHeaderBlock(text);
      var headers := Mime.ParseHeaderBlock(block);
      WalkMimePart([], Part(headers, body, None), 0);
      entries := out;
    }
  }

  function Message(text: string): Part
  {
    var (block, body) := Mime.SplitHeaderBlock(text);
    Part(Mime.WithLines([], Text.Lines(block)), body, None)
  }

  lemma WalkSimple(reading: Reading, part: Part, section: Section, room: int, maxParts: nat, seen: nat, out: seq<Entry>)
    ensures var walked := Walk(reading, part, section, room, maxParts, seen);
            && (room < 0 || seen >= maxParts ==> walked.seen == seen && out + walked.entries == out)
            && (room >= 0 && seen < maxParts && !KindOf(part.headers).Multipart? ==>
                  walked == Walked(seen, OwnEntry(reading, part, section)))
  {
    hide KindOf;
  }

  lemma WalkMultipart(reading: Reading, part: Part, section: Section, room: int, maxParts: nat, seen: nat)
    requires room >= 0 && seen < maxParts && KindOf(part.headers).Multipart?
    ensures Walk(reading, part, section, room, maxParts, seen)
            == WalkChildren(reading, part, 0, section, room - 1, maxParts, seen)
  {
    hide KindOf;
  }

  /** Going on from child `index` ends with `seen'` parts seen and `out'` reported. */
  ghost predicate Continues(reading: Reading, part: Part, index: nat, section: Section, room: int,
                            seen: nat, out: seq<Entry>, seen': nat, out': seq<Entry>)
  {
    var rest := WalkChildren(reading, part, index, section, room, MIME_MAX_PARTS, seen);
    seen' == rest.seen && out' == out + rest.entries
  }

  lemma WalkStart(reading: Reading, part: Part, section: Section, room: int, seen: nat, out: seq<Entry>)
    ensures var all := WalkChildren(reading, part, 0, section, room, MIME_MAX_PARTS, seen);
            Continues(reading, part, 0, section, room, seen, out, all.seen, out + all.entries)
  {
  }

  lemma WalkEnd(reading: Reading, part: Part, index: nat, section: Section, room: int,
                seen: nat, out: seq<Entry>, seen': nat, out': seq<Entry>)
    requires index >= |Children(reading, part)| || seen >= MIME_MAX_PARTS
    requires Continues(reading, part, index, section, room, seen, out, seen', out')
    ensures seen' == seen && out' == out
  {
    assert out + [] == out;
  }

  lemma WalkStep(reading: Reading, part: Part, index: nat, section: Section, room: int,
                 seen: nat, out: seq<Entry>, seen': nat, out': seq<Entry>)
    requires index < |Children(reading, part)| && seen < MIME_MAX_PARTS && room >= -1
    requires Continues(reading, part, index, section, room, seen, out, seen', out')
    ensures var first := Walk(reading, Children(reading, part)[index], section + [index + 1], room, MIME_MAX_PARTS, seen + 1);
            Continues(reading, part, index + 1, section, room, first.seen, out + first.entries, seen', out')
  {
    hide Children;
    var child := Children(reading, part)[index];
    var first := WalkChild(reading, child, section + [index + 1], room, MIME_MAX_PARTS, seen);
    var rest := WalkChildren(reading, part, index + 1, section, room, MIME_MAX_PARTS, first.seen);
    assert first == Walk(reading, child, section + [index + 1], room, MIME_MAX_PARTS, seen + 1);
    assert out + (first.entries + rest.entries) == (out + first.entries) + rest.entries;
  }

  // ---- the walk without budgets ----

  function FullWalk(reading: Reading, part: Part, section: Section): seq<Entry>
    decreases |part.body|, 1, 0
  {
    if KindOf(part.headers).Multipart? then FullChildren(reading, part, 0, section)
    else OwnEntry(reading, part, section)
  }

  function FullChildren(reading: Reading, part: Part, index: nat, section: Section): seq<Entry>
    decreases |part.body|, 0, |Children(reading, part)| - index
  {
    var children := Children(reading, part);
    if index >= |children| then []
    else FullWalk(reading, children[index], section + [index + 1]) + FullChildren(reading, part, index + 1, section)
  }

  /** How many parts there are below a part, and how deep they go. */
  datatype Extent = Extent(parts: nat, depth: nat)

  function ExtentOf(reading: Reading, part: Part): Extent
    decreases |part.body|, 1, 0
  {
    ExtentFrom(reading, part, 0)
  }

  function ExtentFrom(reading: Reading, part: Part, index: nat): Extent
    decreases |part.body|, 0, |Children(reading, part)| - index
  {
    var children := Children(reading, part);
    if index >= |children| then Extent(0, 0)
    else
      var first, rest := ExtentOf(reading, children[index]), ExtentFrom(reading, part, index + 1);
      Extent(1 + first.parts + rest.parts, if first.depth + 1 > rest.depth then first.depth + 1 else rest.depth)
  }

  // ---- sections lead to the parts they describe ----

  /** The part that a section leads to from `part`: each number picks a child, counted from 1. */
  function PartAt(reading: Reading, part: Part, section: Section): Option<Part>
    decreases |section|
  {
    if section == [] then Some(part)
    else
      var children := Children(reading, part);
      if 1 <= section[0] <= |children| then PartAt(reading, children[section[0] - 1], section[1..]) else None
  }

  /** The entry's section, taken below `base`, leads from `part` to a leaf with the entry's metadata. */
  predicate LeadsToLeaf(reading: Reading, part: Part, base: Section, entry: Entry)
  {
    && base <= entry.section
    && var found := PartAt(reading, part, entry.section[|base|..]);
       && found.Some?
       && KindOf(found.value.headers).Leaf?
       && reading.classify(found.value) == Some(entry.meta)
  }

  lemma {:induction false} FullWalkLeads(reading: Reading, part: Part, section: Section)
    ensures forall e :: e in FullWalk(reading, part, section) ==> LeadsToLeaf(reading, part, section, e)
    decreases |part.body|, 1, 0
  {
    hide KindOf;
    if KindOf(part.headers).Multipart? {
      FullChildrenLead(reading, part, 0, section);
    }
  }

  lemma {:induction false} FullChildrenLead(reading: Reading, part: Part, index: nat, section: Section)
    ensures forall e :: e in FullChildren(reading, part, index, section) ==>
              LeadsToLeaf(reading, part, section, e)
              && |e.section| > |section| && e.section[|section|] > index
    decreases |part.body|, 0, |Children(reading, part)| - index
  {
    hide KindOf, Children;
    var children := Children(reading, part);
    if index < |children| {
      var next := section + [index + 1];
      FullWalkLeads(reading, children[index], next);
      FullChildrenLead(reading, part, index + 1, section);
      forall e | e in FullWalk(reading, children[index], next)
        ensures LeadsToLeaf(reading, part, section, e) && |e.section| > |section| && e.section[|section|] > index
      {
        assert LeadsToLeaf(reading, children[index], next, e);
        BelowChild(e.section, section, index + 1);
      }
    }
  }

  lemma BelowChild(whole: Section, section: Section, number: nat)
    requires section + [number] <= whole
    ensures section <= whole && |whole| > |section| && whole[|section|] == number
    ensures whole[|section|..][0] == number && whole[|section|..][1..] == whole[|section + [number]|..]
  {
  }

  // ---- document order ----

  /** Document order: the first number that differs decides, and a part comes before its children. */
  predicate Before(a: Section, b: Section)
    decreases |a|
  {
    b != [] && (a == [] || a[0] < b[0] || (a[0] == b[0] && Before(a[1..], b[1..])))
  }

  predicate Ordered(entries: seq<Entry>)
  {
    forall i, j :: 0 <= i < j < |entries| ==> Before(entries[i].section, entries[j].section)
  }

  lemma {:induction false} BeforeBelow(base: Section, a: Section, b: Section)
    requires base <= a && base <= b && |a| > |base| && |b| > |base| && a[|base|] < b[|base|]
    ensures Before(a, b)
    decreases |base|
  {
    if base != [] {
      assert base[1..] <= a[1..] && base[1..] <= b[1..];
      BeforeBelow(base[1..], a[1..], b[1..]);
    }
  }

  lemma {:induction false} BeforeDiffers(a: Section, b: Section)
    requires Before(a, b)
    ensures a != b
    decreases |a|
  {
    if a != [] && a[0] == b[0] {
      BeforeDiffers(a[1..], b[1..]);
    }
  }

  lemma {:induction false} FullWalkOrdered(reading: Reading, part: Part, section: Section)
    ensures Ordered(FullWalk(reading, part, section))
    decreases |part.body|, 1, 0
  {
    hide KindOf;
    if KindOf(part.headers).Multipart? {
      FullChildrenOrdered(reading, part, 0, section);
    }
  }

  lemma {:induction false} FullChildrenOrdered(reading: Reading, part: Part, index: nat, section: Section)
    ensures Ordered(FullChildren(reading, part, index, section))
    decreases |part.body|, 0, |Children(reading, part)| - index
  {
    hide KindOf, Children;
    var children := Children(reading, part);
    if index < |children| {
      var next := section + [index + 1];
      var first := FullWalk(reading, children[index], next);
      var rest := FullChildren(reading, part, index + 1, section);
      FullWalkOrdered(reading, children[index], next);
      FullChildrenOrdered(reading, part, index + 1, section);
      FullWalkLeads(reading, children[index], next);
      FullChildrenLead(reading, part, index + 1, section);
      forall a, b | a in first && b in rest ensures Before(a.section, b.section) {
        assert LeadsToLeaf(reading, children[index], next, a) && LeadsToLeaf(reading, part, section, b);
        BelowChild(a.section, section, index + 1);
        BeforeBelow(section, a.section, b.section);
      }
      OrderedConcat(first, rest);
    }
  }

  lemma OrderedConcat(a: seq<Entry>, b: seq<Entry>)
    requires Ordered(a) && Ordered(b)
    requires forall x, y :: x in a && y in b ==> Before(x.section, y.section)
    ensures Ordered(a + b)
  {
    forall i, j | 0 <= i < j < |a + b| ensures Before((a + b)[i].section, (a + b)[j].section) {
      if i < |a| <= j {
        assert a[i] in a && b[j - |a|] in b;
      }
    }
  }

  // ---- the bounded walk reports a part of the full one ----

  predicate Subsequence<T(==)>(a: seq<T>, b: seq<T>)
    decreases |b|
  {
    a == [] || (b != [] && (if a[0] == b[0] then Subsequence(a[1..], b[1..]) else Subsequence(a, b[1..])))
  }

  lemma {:induction false} SubsequenceSkip<T>(a: seq<T>, b: seq<T>)
    requires a != [] && Subsequence(a, b)
    ensures Subsequence(a[1..], b)
    decreases |b|
  {
    if a[0] == b[0] {
      if a[1..] != [] && a[1] == b[0] {
        SubsequenceSkip(a[1..], b[1..]);
      }
    } else {
      SubsequenceSkip(a, b[1..]);
      if a[1..] != [] && a[1] == b[0] {
        SubsequenceSkip(a[1..], b[1..]);
      }
    }
  }

  lemma {:induction false} SubsequencePrepend<T>(a: seq<T>, x: T, b: seq<T>)
    requires Subsequence(a, b)
    ensures Subsequence(a, [x] + b)
  {
    assert ([x] + b)[1..] == b;
    if a != [] && a[0] == x {
      SubsequenceSkip(a, b);
    }
  }

  lemma {:induction false} SubsequenceSelf<T>(a: seq<T>)
    ensures Subsequence(a, a)
  {
    if a != [] {
      SubsequenceSelf(a[1..]);
    }
  }

  lemma {:induction false} SubsequenceConcat<T>(a: seq<T>, b: seq<T>, c: seq<T>, d: seq<T>)
    requires Subsequence(a, b) && Subsequence(c, d)
    ensures Subsequence(a + c, b + d)
    decreases |b|
  {
    if b == [] {
      assert a + c == c && b + d == d;
    } else {
      assert b + d == [b[0]] + (b[1..] + d);
      if a != [] && a[0] == b[0] {
        SubsequenceConcat(a[1..], b[1..], c, d);
        assert (a + c)[1..] == a[1..] + c && (b + d)[1..] == b[1..] + d;
      } else {
        SubsequenceConcat(a, b[1..], c, d);
        SubsequencePrepend(a + c, b[0], b[1..] + d);
      }
    }
  }

  /** A subsequence of an ordered list is ordered, and has no element of its own. */
  lemma {:induction false} SubsequenceOrdered(a: seq<Entry>, b: seq<Entry>)
    requires Subsequence(a, b) && Ordered(b)
    ensures Ordered(a) && forall e :: e in a ==> e in b
    decreases |b|
  {
    if a != [] {
      assert b == [b[0]] + b[1..];
      if a[0] == b[0] {
        SubsequenceOrdered(a[1..], b[1..]);
        assert a == [a[0]] + a[1..];
        forall x, y | x in [a[0]] && y in a[1..] ensures Before(x.section, y.section) {
          var j :| 0 <= j < |b[1..]| && b[1..][j] == y;
          assert Before(b[0].section, b[j + 1].section);
        }
        OrderedConcat([a[0]], a[1..]);
      } else {
        SubsequenceOrdered(a, b[1..]);
      }
    }
  }

  /** A walk under budgets reports a subsequence of the walk without them. */
  lemma {:induction false} WalkInFull(reading: Reading, part: Part, section: Section, room: int, maxParts: nat, seen: nat)
    ensures Subsequence(Walk(reading, part, section, room, maxParts, seen).entries, FullWalk(reading, part, section))
    decreases room + 1, 0
  {
    hide KindOf;
    if room >= 0 && seen < maxParts {
      if KindOf(part.headers).Multipart? {
        ChildrenInFull(reading, part, 0, section, room - 1, maxParts, seen);
      } else {
        SubsequenceSelf(OwnEntry(reading, part, section));
      }
    }
  }

  lemma {:induction false} ChildrenInFull(reading: Reading, part: Part, index: nat, section: Section,
                                          room: int, maxParts: nat, seen: nat)
    ensures Subsequence(WalkChildren(reading, part, index, section, room, maxParts, seen).entries,
                        FullChildren(reading, part, index, section))
    decreases room + 1, 1, |Children(reading, part)| - index
  {
    hide KindOf, Children, Subsequence, Walk, FullWalk;
    var children := Children(reading, part);
    if index < |children| && seen < maxParts {
      var next := section + [index + 1];
      var first := WalkChild(reading, children[index], next, room, maxParts, seen);
      ChildrenInFull(reading, part, index + 1, section, room, maxParts, first.seen);
      if room >= 0 {
        WalkInFull(reading, children[index], next, room, maxParts, seen + 1);
      } else {
        SubsequenceEmpty(FullWalk(reading, children[index], next));
      }
      SubsequenceConcat(first.entries, FullWalk(reading, children[index], next),
                        WalkChildren(reading, part, index + 1, section, room, maxParts, first.seen).entries,
                        FullChildren(reading, part, index + 1, section));
    } else {
      SubsequenceEmpty(FullChildren(reading, part, index, section));
    }
  }

  lemma SubsequenceEmpty<T>(b: seq<T>)
    ensures Subsequence([], b)
  {
  }

  /** The part budget is never exceeded. When neither budget bites, the walk is the full one. */
  lemma {:induction false} WalkWithinBudget(reading: Reading, part: Part, section: Section, room: int, maxParts: nat, seen: nat)
    requires seen <= maxParts
    ensures var walked, extent := Walk(reading, part, section, room, maxParts, seen), ExtentOf(reading, part);
            && seen <= walked.seen <= maxParts
            && (extent.depth <= room && seen + extent.parts < maxParts ==>
                  walked == Walked(seen + extent.parts, FullWalk(reading, part, section)))
    decreases room + 1, 0
  {
    hide KindOf, FullChildren, WalkChildren;
    if room >= 0 && seen < maxParts {
      if KindOf(part.headers).Multipart? {
        ChildrenWithinBudget(reading, part, 0, section, room - 1, maxParts, seen);
      } else {
        assert ExtentOf(reading, part) == Extent(0, 0);
      }
    }
  }

  lemma {:induction false} ChildrenWithinBudget(reading: Reading, part: Part, index: nat, section: Section,
                                                room: int, maxParts: nat, seen: nat)
    requires seen <= maxParts
    ensures var walked, extent := WalkChildren(reading, part, index, section, room, maxParts, seen), ExtentFrom(reading, part, index);
            && seen <= walked.seen <= maxParts
            && (extent.depth <= room + 1 && seen + extent.parts < maxParts ==>
                  walked == Walked(seen + extent.parts, FullChildren(reading, part, index, section)))
    decreases room + 1, 1, |Children(reading, part)| - index
  {
    hide KindOf, Children, Walk, FullWalk, ExtentOf;
    var children := Children(reading, part);
    if index < |children| && seen < maxParts {
      var next := section + [index + 1];
      var first := WalkChild(reading, children[index], next, room, maxParts, seen);
      if room >= 0 {
        WalkWithinBudget(reading, children[index], next, room, maxParts, seen + 1);
      }
      ChildrenWithinBudget(reading, part, index + 1, section, room, maxParts, first.seen);
    }
  }

  // ---- the main result ----

  /** What a message's walk reports: sections in strictly increasing document order, so no two
      alike; each leads from the message to the very leaf it describes; all of them among what
      the walk without budgets reports, and all of that when the budgets suffice. */
  lemma ReportedSections(reading: Reading, text: string)
    ensures var root := Message(text);
            var entries := Walk(reading, root, [], MIME_MAX_DEPTH, MIME_MAX_PARTS, 0).entries;
            && Ordered(entries)
            && (forall i, j :: 0 <= i < j < |entries| ==> SectionText(entries[i].section) != SectionText(entries[j].section))
            && (forall e :: e in entries ==> LeadsToLeaf(reading, root, [], e))
            && Subsequence(entries, FullWalk(reading, root, []))
            && (ExtentOf(reading, root).depth <= MIME_MAX_DEPTH && ExtentOf(reading, root).parts < MIME_MAX_PARTS ==>
                  entries == FullWalk(reading, root, []))
  {
    hide KindOf, Message, Walk, FullWalk, LeadsToLeaf, Before, Subsequence, ExtentOf, SectionText;
    var root := Message(text);
    var entries := Walk(reading, root, [], MIME_MAX_DEPTH, MIME_MAX_PARTS, 0).entries;
    WalkInFull(reading, root, [], MIME_MAX_DEPTH, MIME_MAX_PARTS, 0);
    FullWalkOrdered(reading, root, []);
    FullWalkLeads(reading, root, []);
    SubsequenceOrdered(entries, FullWalk(reading, root, []));
    WalkWithinBudget(reading, root, [], MIME_MAX_DEPTH, MIME_MAX_PARTS, 0);
    forall i, j | 0 <= i < j < |entries| ensures SectionText(entries[i].section) != SectionText(entries[j].section) {
      assert entries[i] in entries && entries[j] in entries;
      SectionTextsDiffer(reading, root, entries[i], entries[j]);
    }
  }

  lemma SectionTextsDiffer(reading: Reading, root: Part, a: Entry, b: Entry)
    requires LeadsToLeaf(reading, root, [], a) && LeadsToLeaf(reading, root, [], b)
    requires Before(a.section, b.section)
    ensures SectionText(a.section) != SectionText(b.section)
  {
    hide Dotted, Before;
    BeforeDiffers(a.section, b.section);
    assert a.section[0..] == a.section && b.section[0..] == b.section;
    // if the message itself is a leaf, it has no children and no section but [] leads anywhere
    if a.section != [] && b.section != [] && SectionText(a.section) == SectionText(b.section) {
      DottedInjective(a.section, b.section);
    }
  }

  // ---- section numbers as text ----

  /** `2.1.3`; a message that is not multipart is its own section 1. */
  function SectionText(section: Section): string
  {
    if section == [] then "1" else Dotted(section)
  }

  /** The text the walk builds up, one number at a time. */
  function Dotted(section: Section): string
    requires section != []
  {
    var last := Text.ShowNat(section[|section| - 1]);
    if |section| == 1 then last else Dotted(section[..|section| - 1]) + "." + last
  }

  /** Different sections have different texts. */
  lemma {:induction false} DottedInjective(a: Section, b: Section)
    requires a != [] && b != [] && Dotted(a) == Dotted(b)
    ensures a == b
    decreases |a|
  {
    var x, y := Text.ShowNat(a[|a| - 1]), Text.ShowNat(b[|b| - 1]);
    if |a| == 1 && |b| == 1 {
      assert a[0] == Text.DigitsValue(x) == b[0];
    } else if |a| == 1 {
      DotInside(b, y, x);
    } else if |b| == 1 {
      DotInside(a, x, y);
    } else {
      var front, front' := Dotted(a[..|a| - 1]), Dotted(b[..|b| - 1]);
      SameTail(front, x, front', y);
      DottedInjective(a[..|a| - 1], b[..|b| - 1]);
      assert a == a[..|a| - 1] + [a[|a| - 1]] && b == b[..|b| - 1] + [b[|b| - 1]];
      assert a[|a| - 1] == Text.DigitsValue(x) == b[|b| - 1];
    }
  }

  lemma DotInside(section: Section, last: string, digits: string)
    requires |section| > 1 && last == Text.ShowNat(section[|section| - 1]) && Text.AllDigits(digits)
    ensures Dotted(section) != digits
  {
    var front := Dotted(section[..|section| - 1]);
    assert Dotted(section)[|front|] == '.';
  }

  lemma SameTail(front: string, x: string, front': string, y: string)
    requires front + "." + x == front' + "." + y && Text.AllDigits(x) && Text.AllDigits(y)
    ensures front == front' && x == y
  {
    var text := front + "." + x;
    assert text[|front|] == '.' && (front' + "." + y)[|front'|] == '.';
    DigitsAfter(front, x);
    DigitsAfter(front', y);
    assert text[..|front|] == front && text[|front| + 1..] == x;
    assert text[..|front'|] == front' && text[|front'| + 1..] == y;
  }

  lemma DigitsAfter(front: string, digits: string)
    requires Text.AllDigits(digits)
    ensures forall i :: |front| < i < |front + "." + digits| ==> (front + "." + digits)[i] != '.'
  {
    var text := front + "." + digits;
    forall i | |front| < i < |text| ensures text[i] != '.' {
      assert text[i] == digits[i - |front| - 1];
    }
  }
}
