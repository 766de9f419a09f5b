/** Text operations that the Rust sources take from the standard library: leftmost search, lines,
    splitting at a separator, trimming, replacing, decimal numbers, and sorting with duplicates
    removed. Each one is given by what it finds, not by how it scans. Texts are sequences of
    characters; where the sources count bytes, the model encodes the text first (Utf8.dfy). The
    lemmas say what the other modules need of them: an occurrence with none before it is the one
    found, and a printed number is read back. */
module Text {
  import opened Wrappers

  // ---- leftmost search (str::find) ----

  predicate OccursAt<T(==)>(text: seq<T>, pat: seq<T>, i: int)
  {
    0 <= i && i + |pat| <= |text| && text[i..i + |pat|] == pat
  }

  function FindFrom<T(==)>(text: seq<T>, pat: seq<T>, from: nat): (r: Option<nat>)
    ensures r.Some? ==> from <= r.value && OccursAt(text, pat, r.value)
    ensures r.Some? ==> forall i :: from <= i < r.value ==> !OccursAt(text, pat, i)
    ensures r.None? ==> forall i :: from <= i ==> !OccursAt(text, pat, i)
    decreases |text| - from
  {
    if from + |pat| > |text| then None
    else if text[from..from + |pat|] == pat then Some(from)
    else if from == |text| then None
    else FindFrom(text, pat, from + 1)
  }

  /** The first place where `pat` occurs in `text`. */
  function Find<T(==)>(text: seq<T>, pat: seq<T>): (r: Option<nat>)
    ensures r.Some? ==> OccursAt(text, pat, r.value)
    ensures r.Some? ==> forall i :: 0 <= i < r.value ==> !OccursAt(text, pat, i)
    ensures r.None? ==> forall i :: !OccursAt(text, pat, i)
  {
    FindFrom(text, pat, 0)
  }

  /** An occurrence with none before it is the one that Find reports. */
  lemma FindIs<T>(text: seq<T>, pat: seq<T>, p: nat)
    requires OccursAt(text, pat, p)
    requires forall i :: 0 <= i < p ==> !OccursAt(text, pat, i)
    ensures Find(text, pat) == Some(p)
  {
  }

  /** Text that arrives later never moves an occurrence already complete. */
  lemma FindInPrefix<T>(a: seq<T>, b: seq<T>, pat: seq<T>)
    ensures Find(a, pat).Some? ==> Find(a + b, pat) == Find(a, pat)
    ensures Find(a + b, pat).Some? && Find(a + b, pat).value + |pat| <= |a|
            ==> Find(a, pat) == Find(a + b, pat)
  {
    forall i | 0 <= i && i + |pat| <= |a|
      ensures OccursAt(a, pat, i) <==> OccursAt(a + b, pat, i)
    {
      assert (a + b)[i..i + |pat|] == a[i..i + |pat|];
    }
  }

  /** A one-element pattern occurs exactly where the element stands. */
  lemma OccursSingle<T>(text: seq<T>, x: T, i: nat)
    requires i < |text|
    ensures OccursAt(text, [x], i) <==> text[i] == x
  {
    assert text[i..i + 1] == [text[i]];
  }

  /** The first occurrence of a single element after a prefix without it. */
  lemma FindAfter<T>(a: seq<T>, x: T, b: seq<T>)
    requires x !in a
    ensures Find(a + [x] + b, [x]) == Some(|a|)
  {
    var t := a + [x] + b;
    OccursSingle(t, x, |a|);
    forall i | 0 <= i < |a| ensures !OccursAt(t, [x], i) {
      OccursSingle(t, x, i);
      assert t[i] in a;
    }
  }

  // ---- lines (str::lines) ----

  function WithoutCr(line: string): string
  {
    if line != "" && line[|line| - 1] == '\r' then line[..|line| - 1] else line
  }

  /** The lines of a text, without their LF or CRLF endings; no empty line after the last one. */
  function Lines(text: string): seq<string>
    decreases |text|
  {
    if text == "" then []
    else
      var end := Find(text, "\n");
      if end.None? then [text]
      else [WithoutCr(text[..end.value])] + Lines(text[end.value + 1..])
  }

  predicate Unbroken(line: string)
  {
    '\n' !in line && '\r' !in line
  }

  lemma NotFound(line: string)
    requires '\n' !in line
    ensures Find(line, "\n").None?
  {
    forall i | 0 <= i < |line| ensures !OccursAt(line, "\n", i) {
      OccursSingle(line, '\n', i);
    }
  }

  lemma LineAlone(line: string)
    requires line != "" && '\n' !in line
    ensures Lines(line) == [line]
  {
    NotFound(line);
  }

  // ---- splitting (str::split) ----

  /** The pieces of a text between separators. */
  function SplitOn(text: string, separator: string): seq<string>
    requires separator != ""
    decreases |text|
  {
    var found := Find(text, separator);
    if found.None? then [text]
    else [text[..found.value]] + SplitOn(text[found.value + |separator|..], separator)
  }

  // ---- trimming (str::trim) ----

  /** The Unicode White_Space property. */
  predicate IsWhitespace(c: char)
  {
    var n := c as int;
    9 <= n <= 13 || n == 32 || n == 0x85 || n == 0xA0 || n == 0x1680 || 0x2000 <= n <= 0x200A
    || n == 0x2028 || n == 0x2029 || n == 0x202F || n == 0x205F || n == 0x3000
  }

  function TrimStart(s: string): string
  {
    if s != "" && IsWhitespace(s[0]) then TrimStart(s[1..]) else s
  }

  function TrimEnd(s: string): string
  {
    if s != "" && IsWhitespace(s[|s| - 1]) then TrimEnd(s[..|s| - 1]) else s
  }

  function Trim(s: string): string
  {
    TrimEnd(TrimStart(s))
  }

  /** Removes from the end every character of `set`. */
  function TrimEndMatches(s: string, set_: set<char>): (r: string)
    ensures r <= s && (r != "" ==> r[|r| - 1] !in set_)
    ensures forall i :: |r| <= i < |s| ==> s[i] in set_
  {
    if s != "" && s[|s| - 1] in set_ then TrimEndMatches(s[..|s| - 1], set_) else s
  }

  /** Removes from the start every character of `set_`. */
  function TrimStartMatches(s: string, set_: set<char>): string
  {
    if s != "" && s[0] in set_ then TrimStartMatches(s[1..], set_) else s
  }

  /** Every occurrence of `from`, found left to right without overlap, becomes `to`. */
  function Replace(s: string, from: string, to: string): string
    requires from != ""
  {
    if s == "" then ""
    else if StartsWith(s, from) then to + Replace(s[|from|..], from, to)
    else [s[0]] + Replace(s[1..], from, to)
  }

  function Join(parts: seq<string>, separator: string): string
  {
    if parts == [] then ""
    else if |parts| == 1 then parts[0]
    else parts[0] + separator + Join(parts[1..], separator)
  }

  predicate StartsWith<T(==)>(s: seq<T>, prefix: seq<T>)
  {
    |prefix| <= |s| && s[..|prefix|] == prefix
  }

  function AsciiLower(c: char): char
  {
    if 'A' <= c <= 'Z' then (c as int + 32) as char else c
  }

  predicate EqIgnoreAsciiCase(a: string, b: string)
  {
    |a| == |b| && forall i :: 0 <= i < |a| ==> AsciiLower(a[i]) == AsciiLower(b[i])
  }

  // ---- decimal numbers ----

  predicate IsDigit(c: char)
  {
    '0' <= c <= '9'
  }

  predicate AllDigits(s: string)
  {
    forall i :: 0 <= i < |s| ==> IsDigit(s[i])
  }

  function DigitsValue(s: string): nat
    requires AllDigits(s)
  {
    if s == "" then 0
    else 10 * DigitsValue(s[..|s| - 1]) + (s[|s| - 1] as int - '0' as int)
  }

  function ShowNat(n: nat): (s: string)
    ensures s != "" && AllDigits(s) && DigitsValue(s) == n
  {
    var digit := ('0' as int + n % 10) as char;
    if n < 10 then
      assert [digit][..0] == "";
      [digit]
    else
      var front := ShowNat(n / 10);
      assert (front + [digit])[..|front|] == front;
      front + [digit]
  }

  const USIZE_LIMIT: nat := 0x1_0000_0000_0000_0000

  const I64_LIMIT: int := 0x8000_0000_0000_0000

  /** str::parse::<usize>: an optional plus sign, then digits, within 64 bits. */
  function ParseUsize(s: string): Option<nat>
  {
    var digits := if s != "" && s[0] == '+' then s[1..] else s;
    if digits != "" && AllDigits(digits) && DigitsValue(digits) < USIZE_LIMIT
    then Some(DigitsValue(digits)) else None
  }

  /** str::parse::<i64>: an optional sign, then digits, within the signed 64-bit range. */
  function ParseI64(s: string): (r: Option<int>)
    ensures r.Some? ==> -I64_LIMIT <= r.value < I64_LIMIT
  {
    var negative := s != "" && s[0] == '-';
    var digits := if s != "" && (s[0] == '+' || s[0] == '-') then s[1..] else s;
    if digits == "" || !AllDigits(digits) then None
    else
      var n: int := DigitsValue(digits);
      var v := if negative then -n else n;
      if -I64_LIMIT <= v < I64_LIMIT then Some(v) else None
  }

  lemma ParseShown(n: nat)
    requires n < USIZE_LIMIT
    ensures ParseUsize(ShowNat(n)) == Some(n)
  {
    assert IsDigit(ShowNat(n)[0]);
  }

  // ---- strings in order (Vec::sort then Vec::dedup) ----

  predicate Less(a: string, b: string)
  {
    b != "" && (a == "" || a[0] < b[0] || (a[0] == b[0] && Less(a[1..], b[1..])))
  }

  lemma {:induction false} LessTotal(a: string, b: string)
    ensures !(Less(a, b) && Less(b, a)) && !Less(a, a)
    ensures a != b ==> Less(a, b) || Less(b, a)
  {
    if a != "" {
      LessTotal(a[1..], if b == "" then b else b[1..]);
    }
    if a != "" && b != "" && a[0] == b[0] && a != b {
      assert a == [a[0]] + a[1..] && b == [b[0]] + b[1..];
    }
  }

  lemma {:induction false} LessTransitive(a: string, b: string, c: string)
    requires Less(a, b) && Less(b, c)
    ensures Less(a, c)
  {
    if a != "" && a[0] == b[0] == c[0] {
      LessTransitive(a[1..], b[1..], c[1..]);
    }
  }

  ghost predicate Ascending(s: seq<string>)
  {
    forall i, j :: 0 <= i < j < |s| ==> Less(s[i], s[j])
  }

  function Insert(x: string, s: seq<string>): (r: seq<string>)
    requires Ascending(s)
    ensures Ascending(r)
    ensures forall y :: y in r <==> y == x || y in s
  {
    if s == [] then [x]
    else if x == s[0] then s
    else if Less(x, s[0]) then
      assert forall j :: 0 < j < |s| ==> Less(x, s[j]) by {
        forall j | 0 < j < |s| ensures Less(x, s[j]) { LessTransitive(x, s[0], s[j]); }
      }
      [x] + s
    else
      assert Less(s[0], x) by { LessTotal(x, s[0]); }
      assert s == [s[0]] + s[1..];
      var rest := Insert(x, s[1..]);
      assert forall y :: y in rest ==> Less(s[0], y);
      [s[0]] + rest
  }

  /** The strings of `s` in strictly ascending order, each once. */
  function SortDedup(s: seq<string>): (r: seq<string>)
    ensures Ascending(r)
    ensures forall y :: y in r <==> y in s
  {
    if s == [] then []
    else
      assert s == [s[0]] + s[1..];
      Insert(s[0], SortDedup(s[1..]))
  }

  /** An ascending list has no element twice. */
  lemma AscendingDistinct(s: seq<string>)
    requires Ascending(s)
    ensures forall i, j :: 0 <= i < j < |s| ==> s[i] != s[j]
  {
    forall i, j | 0 <= i < j < |s| ensures s[i] != s[j] {
      LessTotal(s[i], s[j]);
    }
  }

  /** Before another comes a text that it continues, or that has the smaller character where the two
      first differ. */
  lemma {:induction false} LessIff(a: string, b: string)
    ensures Less(a, b) <==>
            exists i :: 0 <= i <= |a| && i < |b| && a[..i] == b[..i] && (i == |a| || a[i] < b[i])
    decreases |a|
  {
    if a != [] && b != [] && a[0] == b[0] {
      LessIff(a[1..], b[1..]);
      if exists i :: 0 <= i <= |a| && i < |b| && a[..i] == b[..i] && (i == |a| || a[i] < b[i]) {
        var i :| 0 <= i <= |a| && i < |b| && a[..i] == b[..i] && (i == |a| || a[i] < b[i]);
        assert i > 0;
        assert a[1..][..i - 1] == a[..i][1..] && b[1..][..i - 1] == b[..i][1..];
      }
      if Less(a[1..], b[1..]) {
        var j :| 0 <= j <= |a[1..]| && j < |b[1..]| && a[1..][..j] == b[1..][..j] && (j == |a[1..]| || a[1..][j] < b[1..][j]);
        assert a[..j + 1] == [a[0]] + a[1..][..j] && b[..j + 1] == [b[0]] + b[1..][..j];
      }
    } else if Less(a, b) {
      assert a[..0] == b[..0];
    } else {
      FirstsDiffer(a, b);
    }
  }

  lemma FirstsDiffer(a: string, b: string)
    requires b == "" || (a != "" && a[0] > b[0])
    ensures !exists i :: 0 <= i <= |a| && i < |b| && a[..i] == b[..i] && (i == |a| || a[i] < b[i])
  {
    if b != "" {
      forall i | 0 < i <= |a| && i < |b| ensures a[..i] != b[..i] {
        assert a[..i][0] == a[0] && b[..i][0] == b[0];
      }
    }
  }

  /** Whole numbers may have a plus sign, signed ones either, within 64 bits. */
  lemma SignsParsed(digits: string)
    requires digits != "" && AllDigits(digits)
    ensures ParseUsize(digits) == ParseUsize("+" + digits)
            == if DigitsValue(digits) < 18446744073709551616 then Some(DigitsValue(digits)) else None
    ensures ParseUsize("-" + digits).None?
    ensures ParseI64(digits) == ParseI64("+" + digits)
            == if DigitsValue(digits) < 9223372036854775808 then Some(DigitsValue(digits)) else None
    ensures var value: int := DigitsValue(digits);
            ParseI64("-" + digits) == if value <= 9223372036854775808 then Some(-value) else None
  {
    hide DigitsValue;
    assert ("+" + digits)[1..] == digits && ("-" + digits)[1..] == digits;
    assert IsDigit(digits[0]) && !IsDigit(("-" + digits)[0]);
  }

  /** Numbers are shown in decimal, without leading zeros. */
  lemma DecimalDigits(n: nat, d: nat)
    requires d < 10
    ensures ShowNat(d) == ["0123456789"[d]]
    ensures n > 0 ==> ShowNat(10 * n + d) == ShowNat(n) + ["0123456789"[d]]
  {
    assert "0123456789"[d] == ('0' as int + d) as char;
    var m := 10 * n + d;
    assert m / 10 == n && m % 10 == d;
  }
}
