/** Header fields as a sender may write them, folded and with parameters, and what is read of them (src/email_attachment.rs). */
module HeaderForms {
  import opened Wrappers
  import opened TextLines
  import opened HeaderParams
  import Mime
  import Text

  // ---- fields ----

  /** A line after the first of a field: its continuation, or a line that is no header at all. */
  datatype More =
    | Fold(space: string, text: string)
    | Junk(text: string)

  datatype Field = Field(name: string, space: string, value: string, more: seq<More>)

  predicate Blank(s: string)
  {
    forall i :: 0 <= i < |s| ==> s[i] == ' ' || s[i] == '\t'
  }

  predicate PlainMore(more: More)
  {
    if more.Fold? then more.space != "" && Blank(more.space) && Tight(more.text) && Text.Unbroken(more.text)
    else more.text != "" && more.text[0] != ' ' && more.text[0] != '\t' && ':' !in more.text && Text.Unbroken(more.text)
  }

  predicate PlainMores(more: seq<More>)
  {
    forall i :: 0 <= i < |more| ==> PlainMore(more[i])
  }

  predicate PlainField(field: Field)
  {
    && field.name != "" && Tight(field.name) && ':' !in field.name && Text.Unbroken(field.name)
    && Blank(field.space) && Tight(field.value) && Text.Unbroken(field.value)
    && PlainMores(field.more)
  }

  predicate PlainFields(fields: seq<Field>)
  {
    forall i :: 0 <= i < |fields| ==> PlainField(fields[i])
  }

  function MoreLine(more: More): string
  {
    if more.Fold? then more.space + more.text else more.text
  }

  function MoreLines(more: seq<More>): seq<string>
  {
    if more == [] then [] else [MoreLine(more[0])] + MoreLines(more[1..])
  }

  function FirstLine(field: Field): string
  {
    field.name + ":" + field.space + field.value
  }

  function FieldLines(field: Field): seq<string>
  {
    [FirstLine(field)] + MoreLines(field.more)
  }

  function FieldsLines(fields: seq<Field>): seq<string>
  {
    if fields == [] then [] else FieldLines(fields[0]) + FieldsLines(fields[1..])
  }

  /** The value with its continuations, one space before each. */
  function Unfolded(value: string, more: seq<More>): string
    decreases |more|
  {
    if more == [] then value
    else Unfolded(if more[0].Fold? then value + " " + more[0].text else value, more[1..])
  }

  /** What a field says: its name in lower case, and its whole value. */
  function Said(field: Field): Mime.Header
  {
    Mime.Header(Mime.AsciiLowerAll(field.name), Unfolded(field.value, field.more))
  }

  function AllSaid(fields: seq<Field>): (headers: seq<Mime.Header>)
    ensures |headers| == |fields|
    ensures forall i :: 0 <= i < |fields| ==> headers[i] == Said(fields[i])
  {
    if fields == [] then [] else [Said(fields[0])] + AllSaid(fields[1..])
  }

  lemma BlankIsSpace(s: string)
    requires Blank(s)
    ensures AllSpace(s) && Text.Unbroken(s)
  {
  }

  lemma {:induction false} WithLinesConcat(headers: seq<Mime.Header>, a: seq<string>, b: seq<string>)
    ensures Mime.WithLines(headers, a + b) == Mime.WithLines(Mime.WithLines(headers, a), b)
    decreases |a|
  {
    hide Mime.WithLine;
    if a == [] {
      assert a + b == b;
    } else {
      assert (a + b)[1..] == a[1..] + b;
      WithLinesConcat(Mime.WithLine(headers, a[0]), a[1..], b);
    }
  }

  lemma FirstLineRead(headers: seq<Mime.Header>, field: Field)
    requires PlainField(field)
    ensures Mime.WithLine(headers, FirstLine(field)) == headers + [Mime.Header(Mime.AsciiLowerAll(field.name), field.value)]
  {
    hide Text.Trim, Text.Find, Mime.AsciiLowerAll, PlainMores;
    var line := FirstLine(field);
    assert line == field.name + [':'] + (field.space + field.value);
    assert [':'] == ":";
    Text.FindAfter(field.name, ':', field.space + field.value);
    assert line[..|field.name|] == field.name && line[|field.name| + 1..] == field.space + field.value;
    assert line[0] == field.name[0];
    BlankIsSpace(field.space);
    Trimmed("", field.name, "");
    Trimmed(field.space, field.value, "");
    assert "" + field.name + "" == field.name && field.space + field.value + "" == field.space + field.value;
  }

  lemma MoreLineRead(headers: seq<Mime.Header>, header: Mime.Header, more: More)
    requires PlainMore(more)
    ensures Mime.WithLine(headers + [header], MoreLine(more)) ==
            headers + [if more.Fold? then header.(value := header.value + " " + more.text) else header]
  {
    hide Text.Trim, Mime.AsciiLowerAll;
    var line, all := MoreLine(more), headers + [header];
    assert all[..|all| - 1] == headers && all[|all| - 1] == header;
    if more.Fold? {
      assert line[0] == more.space[0];
      BlankIsSpace(more.space);
      Trimmed(more.space, more.text, "");
      assert more.space + more.text + "" == more.space + more.text;
    } else {
      NoColon(line);
    }
  }

  lemma NoColon(line: string)
    requires ':' !in line
    ensures Text.Find(line, ":").None?
  {
    assert ":" == [':'];
    forall i | 0 <= i < |line| ensures !Text.OccursAt(line, ":", i) {
      Text.OccursSingle(line, ':', i);
    }
  }

  lemma {:induction false} MoreLinesRead(headers: seq<Mime.Header>, header: Mime.Header, more: seq<More>)
    requires PlainMores(more)
    ensures Mime.WithLines(headers + [header], MoreLines(more)) == headers + [header.(value := Unfolded(header.value, more))]
    decreases |more|
  {
    hide Mime.WithLine, PlainMore, MoreLine;
    if more != [] {
      MoreLineRead(headers, header, more[0]);
      var lines := MoreLines(more);
      assert lines[0] == MoreLine(more[0]) && lines[1..] == MoreLines(more[1..]);
      MoreLinesRead(headers, if more[0].Fold? then header.(value := header.value + " " + more[0].text) else header, more[1..]);
    }
  }

  /** Every field is read with its whole value, however it is folded, and what is no header is left out. */
  lemma {:induction false} FieldsRead(headers: seq<Mime.Header>, fields: seq<Field>)
    requires PlainFields(fields)
    ensures Mime.WithLines(headers, FieldsLines(fields)) == headers + AllSaid(fields)
    decreases |fields|
  {
    hide Mime.WithLine, Mime.WithLines, PlainField, MoreLines, FirstLine;
    if fields == [] {
      NoLinesRead(headers);
    } else {
      var field, rest := fields[0], FieldsLines(fields[1..]);
      WithLinesConcat(headers, FieldLines(field), rest);
      WithLinesConcat(headers, [FirstLine(field)], MoreLines(field.more));
      OneFieldRead(headers, field);
      FieldsRead(headers + [Said(field)], fields[1..]);
    }
  }

  lemma NoLinesRead(headers: seq<Mime.Header>)
    ensures Mime.WithLines(headers, []) == headers
  {
  }

  lemma OneFieldRead(headers: seq<Mime.Header>, field: Field)
    requires PlainField(field)
    ensures Mime.WithLines(Mime.WithLines(headers, [FirstLine(field)]), MoreLines(field.more)) == headers + [Said(field)]
  {
    hide Mime.WithLine, FirstLine, MoreLines, Unfolded;
    FirstLineRead(headers, field);
    var lines := [FirstLine(field)];
    assert lines[1..] == [];
    MoreLinesRead(headers, Mime.Header(Mime.AsciiLowerAll(field.name), field.value), field.more);
  }

  lemma {:induction false} MoreLinesUnbroken(more: seq<More>)
    requires PlainMores(more)
    ensures AllUnbroken(MoreLines(more)) && NoneEmpty(MoreLines(more))
    decreases |more|
  {
    if more != [] {
      MoreLinesUnbroken(more[1..]);
    }
  }

  /** The lines of the fields are lines, none of them empty. */
  lemma {:induction false} FieldsUnbroken(fields: seq<Field>)
    requires PlainFields(fields)
    ensures AllUnbroken(FieldsLines(fields)) && NoneEmpty(FieldsLines(fields))
    ensures fields != [] ==> FieldsLines(fields) != []
    decreases |fields|
  {
    hide MoreLines;
    if fields != [] {
      BlankIsSpace(fields[0].space);
      MoreLinesUnbroken(fields[0].more);
      FieldsUnbroken(fields[1..]);
    }
  }

  // ---- the first of a name ----

  /** A header is found by its name: it is the first of that name. */
  lemma {:induction false} FirstHeaderIs(headers: seq<Mime.Header>, name: string, i: nat)
    requires i < |headers| && headers[i].name == name && forall j :: 0 <= j < i ==> headers[j].name != name
    ensures HeaderValueOf(headers, name) == Some(headers[i].value)
    decreases i
  {
    if i > 0 {
      FirstHeaderIs(headers[1..], name, i - 1);
    }
  }

  lemma {:induction false} NoHeaderIs(headers: seq<Mime.Header>, name: string)
    requires forall j :: 0 <= j < |headers| ==> headers[j].name != name
    ensures HeaderValueOf(headers, name).None?
    decreases |headers|
  {
    if headers != [] {
      NoHeaderIs(headers[1..], name);
    }
  }

  /** So is a parameter. */
  lemma {:induction false} FirstParamIs(params: seq<Param>, name: string, i: nat)
    requires i < |params| && params[i].name == name && forall j :: 0 <= j < i ==> params[j].name != name
    ensures ParamValueOf(params, name) == Some(params[i].value)
    decreases i
  {
    if i > 0 {
      FirstParamIs(params[1..], name, i - 1);
    }
  }

  lemma {:induction false} NoParamIs(params: seq<Param>, name: string)
    requires forall j :: 0 <= j < |params| ==> params[j].name != name
    ensures ParamValueOf(params, name).None?
    decreases |params|
  {
    if params != [] {
      NoParamIs(params[1..], name);
    }
  }

  // ---- parameters ----

  /** A parameter as it is written: its value between quotes, or as it is. */
  datatype Setting = Setting(space: string, name: string, quoted: bool, value: string)

  predicate Unquoted(s: string)
  {
    '"' !in s && ';' !in s
  }

  predicate PlainSetting(setting: Setting)
  {
    && AllSpace(setting.space)
    && Tight(setting.name) && Unquoted(setting.name) && '=' !in setting.name
    && (!setting.quoted ==> Tight(setting.value) && Unquoted(setting.value))
  }

  predicate PlainSettings(settings: seq<Setting>)
  {
    forall i :: 0 <= i < |settings| ==> PlainSetting(settings[i])
  }

  /** Between quotes, a quote or a backslash has a backslash before it. */
  function Escaped(value: string): string
  {
    if value == "" then ""
    else (if value[0] == '"' || value[0] == '\\' then ['\\', value[0]] else [value[0]]) + Escaped(value[1..])
  }

  function ValueText(setting: Setting): string
  {
    if setting.quoted then "\"" + Escaped(setting.value) + "\"" else setting.value
  }

  function SettingText(setting: Setting): string
  {
    setting.space + setting.name + "=" + ValueText(setting)
  }

  function SettingTexts(settings: seq<Setting>): seq<string>
  {
    if settings == [] then [] else [SettingText(settings[0])] + SettingTexts(settings[1..])
  }

  function SettingsText(settings: seq<Setting>): string
  {
    if settings == [] then "" else ";" + (SettingText(settings[0]) + SettingsText(settings[1..]))
  }

  function ParamsSaid(settings: seq<Setting>): (params: seq<Param>)
    ensures |params| == |settings|
    ensures forall i :: 0 <= i < |settings| ==>
              params[i] == Param(Mime.AsciiLowerAll(settings[i].name), settings[i].value)
  {
    if settings == [] then []
    else [Param(Mime.AsciiLowerAll(settings[0].name), settings[0].value)] + ParamsSaid(settings[1..])
  }

  lemma {:induction false} UnquotedScan(text: string, rest: string, current: string)
    requires Unquoted(text)
    ensures Segments(text + rest, current, false, false) == Segments(rest, current + text, false, false)
    decreases |text|
  {
    if text == "" {
      assert text + rest == rest && current + text == current;
    } else {
      assert (text + rest)[1..] == text[1..] + rest;
      UnquotedScan(text[1..], rest, current + [text[0]]);
      assert current + [text[0]] + text[1..] == current + text;
    }
  }

  lemma {:induction false} EscapedScan(value: string, rest: string, current: string)
    ensures Segments(Escaped(value) + rest, current, true, false) == Segments(rest, current + Escaped(value), true, false)
    decreases |value|
  {
    hide Segments;
    if value == "" {
      assert Escaped(value) + rest == rest && current + Escaped(value) == current;
    } else {
      var c, after := value[0], Escaped(value[1..]);
      var shown := if c == '"' || c == '\\' then ['\\', c] else [c];
      EscapedScan(value[1..], rest, current + shown);
      if c == '"' || c == '\\' {
        EscapedPair(c, after + rest, current);
      } else {
        OtherChar(c, after + rest, current);
      }
      assert Escaped(value) + rest == shown + (after + rest);
      assert current + shown + after == current + Escaped(value);
    }
  }

  lemma OtherChar(c: char, rest: string, current: string)
    requires c != '"' && c != '\\'
    ensures Segments([c] + rest, current, true, false) == Segments(rest, current + [c], true, false)
  {
    assert ([c] + rest)[1..] == rest;
  }

  lemma EscapedPair(c: char, rest: string, current: string)
    ensures Segments(['\\', c] + rest, current, true, false) == Segments(rest, current + ['\\', c], true, false)
  {
    var all := ['\\', c] + rest;
    assert all[1..] == [c] + rest && ([c] + rest)[1..] == rest;
    assert current + ['\\'] + [c] == current + ['\\', c];
  }

  lemma QuoteToggles(rest: string, current: string, quoted: bool)
    ensures Segments("\"" + rest, current, quoted, false) == Segments(rest, current + "\"", !quoted, false)
  {
    assert ("\"" + rest)[1..] == rest;
  }

  lemma ValueScan(setting: Setting, rest: string, current: string)
    requires PlainSetting(setting)
    ensures Segments(ValueText(setting) + rest, current, false, false)
            == Segments(rest, current + ValueText(setting), false, false)
  {
    hide Segments, Escaped;
    if setting.quoted {
      var text := Escaped(setting.value);
      assert ValueText(setting) + rest == "\"" + (text + ("\"" + rest));
      QuoteToggles(text + ("\"" + rest), current, false);
      EscapedScan(setting.value, "\"" + rest, current + "\"");
      QuoteToggles(rest, current + "\"" + text, true);
      assert current + "\"" + text + "\"" == current + ValueText(setting);
    } else {
      UnquotedScan(setting.value, rest, current);
    }
  }

  lemma SettingScan(setting: Setting, rest: string)
    requires PlainSetting(setting)
    ensures Segments(SettingText(setting) + rest, "", false, false) == Segments(rest, SettingText(setting), false, false)
  {
    hide Segments, ValueText;
    var front := setting.space + setting.name + "=";
    assert SettingText(setting) + rest == front + (ValueText(setting) + rest);
    SpaceUnquoted(setting.space);
    UnquotedScan(front, ValueText(setting) + rest, "");
    assert "" + front == front;
    ValueScan(setting, rest, front);
  }

  lemma SpaceUnquoted(s: string)
    requires AllSpace(s)
    ensures Unquoted(s) && '=' !in s
  {
  }

  lemma {:induction false} SettingsScan(settings: seq<Setting>, current: string)
    requires PlainSettings(settings)
    ensures Segments(SettingsText(settings), current, false, false) == [current] + SettingTexts(settings)
    decreases |settings|
  {
    hide PlainSetting, SettingText;
    if settings != [] {
      var rest := SettingsText(settings[1..]);
      SemicolonStep(current, SettingText(settings[0]) + rest);
      SettingScan(settings[0], rest);
      SettingsScan(settings[1..], SettingText(settings[0]));
    }
  }

  lemma {:induction false} UnescapedEscaped(value: string)
    ensures Unescaped(Escaped(value)) == value
    decreases |value|
  {
    if value != "" {
      var text, after := Escaped(value), Escaped(value[1..]);
      UnescapedEscaped(value[1..]);
      if value[0] == '"' || value[0] == '\\' {
        assert text[2..] == after && text[0] == '\\' && text[1] == value[0];
      } else {
        assert text[1..] == after && text[0] == value[0];
      }
    }
  }

  lemma SettingRead(setting: Setting)
    requires PlainSetting(setting)
    ensures ParamOf(SettingText(setting)) == Some(Param(Mime.AsciiLowerAll(setting.name), setting.value))
  {
    hide Text.Trim, Text.Find, Mime.AsciiLowerAll, Unescaped, ValueText, InQuotes;
    var segment, front, raw := SettingText(setting), setting.space + setting.name, ValueText(setting);
    SpaceUnquoted(setting.space);
    assert segment == front + ['='] + raw;
    assert ['='] == "=";
    Text.FindAfter(front, '=', raw);
    assert segment[..|front|] == front && segment[|front| + 1..] == raw;
    Trimmed(setting.space, setting.name, "");
    assert setting.space + setting.name + "" == front;
    ValueRead(setting);
  }

  lemma ValueRead(setting: Setting)
    requires PlainSetting(setting)
    ensures var raw := ValueText(setting);
            && Text.Trim(raw) == raw
            && setting.value == if InQuotes(raw) then Unescaped(raw[1..|raw| - 1]) else raw
  {
    hide Text.Trim, Unescaped, Escaped;
    var raw := ValueText(setting);
    Trimmed("", raw, "");
    assert "" + raw + "" == raw;
    if setting.quoted {
      UnescapedEscaped(setting.value);
      assert raw[1..|raw| - 1] == Escaped(setting.value);
    } else if raw != "" {
      assert raw[0] in raw;
    }
  }

  lemma {:induction false} SettingsRead(settings: seq<Setting>)
    requires PlainSettings(settings)
    ensures Params(SettingTexts(settings)) == ParamsSaid(settings)
    decreases |settings|
  {
    hide PlainSetting, SettingText, ParamOf;
    if settings != [] {
      SettingRead(settings[0]);
      SettingsRead(settings[1..]);
      var texts := SettingTexts(settings);
      assert texts[0] == SettingText(settings[0]) && texts[1..] == SettingTexts(settings[1..]);
    }
  }

  /** A main value and any settings are read back, each setting in its place; between quotes a value
      may be any text. */
  lemma SettingsReadBack(main: string, settings: seq<Setting>)
    requires Tight(main) && Unquoted(main) && PlainSettings(settings)
    ensures StructuredOf(main + SettingsText(settings)) == Structured(Mime.AsciiLowerAll(main), ParamsSaid(settings))
  {
    hide Segments, Text.Trim, Mime.AsciiLowerAll, SettingsText, PlainSettings;
    UnquotedScan(main, SettingsText(settings), "");
    assert "" + main == main;
    SettingsScan(settings, main);
    SettingsRead(settings);
    Trimmed("", main, "");
    assert "" + main + "" == main;
    var segments := [main] + SettingTexts(settings);
    assert segments[1..] == SettingTexts(settings);
  }

  /** A segment without an equals sign is no parameter. */
  lemma NoEqualsNoParam(segment: string)
    requires '=' !in segment
    ensures ParamOf(segment).None?
  {
    assert "=" == ['='];
    forall i | 0 <= i < |segment| ensures !Text.OccursAt(segment, "=", i) {
      Text.OccursSingle(segment, '=', i);
    }
  }
}
