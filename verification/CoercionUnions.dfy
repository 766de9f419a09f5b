/** When coercion by a `oneOf` or `anyOf` is stable (src/arg_coercion.rs): conditions on the branches
    of the schema under which coercing a result again leaves it alone, for every value; for two
    branches and for any number of scalar ones, the exact conditions. */
module CoercionUnions {
  import opened Wrappers
  import opened Json
  import opened Coercion
  import opened CoercionForms
  import Text

  /** Whatever the union accepts, it leaves alone the second time. */
  ghost predicate Stable(mode: Mode, schema: Value)
  {
    forall value :: FixedAfter(mode, value, schema)
  }

  predicate FixedAfter(mode: Mode, value: Value, schema: Value)
  {
    var r := Coerce(mode, value, schema);
    r.Some? ==> Coerce(mode, r.value, schema) == r
  }

  // ---- two branches in their order ----

  /** A value that the earlier branch refuses and the later one takes is not taken by the earlier
      branch afterwards, unless as it is. */
  predicate SettledFor(mode: Mode, value: Value, earlier: Value, later: Value)
  {
    var r := Coerce(mode, value, later);
    Coerce(mode, value, earlier).None? && r.Some? ==>
      Coerce(mode, r.value, earlier).None? || Coerce(mode, r.value, earlier) == r
  }

  ghost predicate Settled(mode: Mode, earlier: Value, later: Value)
  {
    forall value :: SettledFor(mode, value, earlier, later)
  }

  predicate UnionFreeBranches(schema: Value)
  {
    UnionBranches(schema).Some?
    && forall i :: 0 <= i < |UnionBranches(schema).value| ==> UnionFree(UnionBranches(schema).value[i])
  }

  /** A value that the first branch accepts is fixed from then on. */
  lemma FirstBranchFixed(mode: Mode, value: Value, schema: Value)
    requires UnionFreeBranches(schema) && UnionBranches(schema).value != []
    requires Coerce(mode, value, UnionBranches(schema).value[0]).Some?
    ensures Coerce(mode, value, schema) == Coerce(mode, value, UnionBranches(schema).value[0])
    ensures FixedAfter(mode, value, schema)
  {
    hide Coerce, CoerceType, UnionFree;
    UnionIs(mode, value, schema);
    CoerceFixedPoints(mode, value, UnionBranches(schema).value[0]);
    UnionIs(mode, Coerce(mode, value, schema).value, schema);
  }

  /** If every branch is settled with every later one, the union is stable. */
  lemma SettledUnionStable(mode: Mode, schema: Value)
    requires UnionFreeBranches(schema)
    requires var branches := UnionBranches(schema).value;
             forall m, k :: 0 <= m < k < |branches| ==> Settled(mode, branches[m], branches[k])
    ensures Stable(mode, schema)
  {
    hide Coerce, CoerceType, UnionFree;
    forall value ensures FixedAfter(mode, value, schema) {
      if Coerce(mode, value, schema).Some? {
        SettledValueFixed(mode, value, schema);
      }
    }
  }

  lemma SettledValueFixed(mode: Mode, value: Value, schema: Value)
    requires UnionFreeBranches(schema) && Coerce(mode, value, schema).Some?
    requires var branches := UnionBranches(schema).value;
             forall m, k :: 0 <= m < k < |branches| ==> SettledFor(mode, value, branches[m], branches[k])
    ensures FixedAfter(mode, value, schema)
  {
    hide Coerce, CoerceType, UnionFree;
    var branches := UnionBranches(schema).value;
    UnionIs(mode, value, schema);
    var k := MatchingBranch(mode, value, schema, branches);
    var r := Coerce(mode, value, schema).value;
    CoerceFixedPoints(mode, value, branches[k]);
    UnionIs(mode, r, schema);
    FirstMatchAccepts(mode, r, schema, branches, k);
    var m := MatchingBranch(mode, r, schema, branches);
    assert m < k ==> SettledFor(mode, value, branches[m], branches[k]);
  }

  /** A union of two branches is stable exactly when they are settled. */
  lemma TwoBranchesIff(mode: Mode, schema: Value, earlier: Value, later: Value)
    requires UnionBranches(schema) == Some([earlier, later]) && UnionFree(earlier) && UnionFree(later)
    ensures Stable(mode, schema) <==> Settled(mode, earlier, later)
  {
    hide Coerce, CoerceType, UnionFree;
    var branches := [earlier, later];
    if Settled(mode, earlier, later) {
      SettledUnionStable(mode, schema);
    }
    if Stable(mode, schema) {
      forall value ensures SettledFor(mode, value, earlier, later) {
        assert FixedAfter(mode, value, schema);
        FirstOfTwo(mode, value, schema, branches);
        if Coerce(mode, value, later).Some? {
          FirstOfTwo(mode, Coerce(mode, value, later).value, schema, branches);
        }
      }
    }
  }

  predicate Refused(mode: Mode, value: Value, branches: seq<Value>, n: nat)
    requires n <= |branches|
  {
    forall j :: 0 <= j < n ==> Coerce(mode, value, branches[j]).None?
  }

  /** The same among many branches: a branch in between may take over the value or its result. */
  predicate SettledAmong(mode: Mode, value: Value, branches: seq<Value>, m: nat, k: nat)
    requires m < k < |branches|
  {
    var r := Coerce(mode, value, branches[k]);
    Refused(mode, value, branches, k) && r.Some? && Refused(mode, r.value, branches, m) ==>
      Coerce(mode, r.value, branches[m]).None? || Coerce(mode, r.value, branches[m]) == r
  }

  /** A union of any number of branches is stable exactly when no result that a branch leaves to a
      later one is taken up, other than as it is, by the first branch that accepts it. */
  lemma ManyBranchesIff(mode: Mode, schema: Value)
    requires UnionFreeBranches(schema)
    ensures var branches := UnionBranches(schema).value;
            Stable(mode, schema) <==>
            forall value, m: nat, k: nat :: m < k < |branches| ==> SettledAmong(mode, value, branches, m, k)
  {
    hide Coerce, CoerceType, UnionFree, SettledAmong, FixedAfter;
    var branches := UnionBranches(schema).value;
    if Stable(mode, schema) {
      forall value, m: nat, k: nat | m < k < |branches| ensures SettledAmong(mode, value, branches, m, k) {
        FixedSettles(mode, value, schema, m, k);
      }
    }
    if forall value, m: nat, k: nat :: m < k < |branches| ==> SettledAmong(mode, value, branches, m, k) {
      forall value ensures FixedAfter(mode, value, schema) {
        SettlingFixes(mode, value, schema);
      }
    }
  }

  lemma {:induction false} FirstMatchAt(mode: Mode, value: Value, schema: Value, branches: seq<Value>, k: nat)
    requires forall j :: 0 <= j < |branches| ==> branches[j] < schema
    requires k < |branches| && Refused(mode, value, branches, k) && Coerce(mode, value, branches[k]).Some?
    ensures FirstMatch(mode, value, schema, branches) == Coerce(mode, value, branches[k])
    decreases |branches|
  {
    hide Coerce;
    if k > 0 {
      assert forall j :: 0 <= j < k - 1 ==> branches[1..][j] == branches[j + 1];
      FirstMatchAt(mode, value, schema, branches[1..], k - 1);
    }
  }

  lemma FixedSettles(mode: Mode, value: Value, schema: Value, m: nat, k: nat)
    requires UnionBranches(schema).Some? && m < k < |UnionBranches(schema).value| && FixedAfter(mode, value, schema)
    ensures SettledAmong(mode, value, UnionBranches(schema).value, m, k)
  {
    hide Coerce, CoerceType, Refused;
    var branches := UnionBranches(schema).value;
    var r := Coerce(mode, value, branches[k]);
    if Refused(mode, value, branches, k) && r.Some? && Refused(mode, r.value, branches, m)
       && Coerce(mode, r.value, branches[m]).Some? {
      UnionIs(mode, value, schema);
      UnionIs(mode, r.value, schema);
      FirstMatchAt(mode, value, schema, branches, k);
      FirstMatchAt(mode, r.value, schema, branches, m);
    }
  }

  lemma SettlingFixes(mode: Mode, value: Value, schema: Value)
    requires UnionFreeBranches(schema)
    requires var branches := UnionBranches(schema).value;
             forall m: nat, k: nat :: m < k < |branches| ==> SettledAmong(mode, value, branches, m, k)
    ensures FixedAfter(mode, value, schema)
  {
    hide Coerce, CoerceType, UnionFree;
    if Coerce(mode, value, schema).Some? {
      var branches := UnionBranches(schema).value;
      UnionIs(mode, value, schema);
      var k := MatchingBranch(mode, value, schema, branches);
      var r := Coerce(mode, value, schema).value;
      CoerceFixedPoints(mode, value, branches[k]);
      UnionIs(mode, r, schema);
      FirstMatchAccepts(mode, r, schema, branches, k);
      var m := MatchingBranch(mode, r, schema, branches);
      assert m < k ==> SettledAmong(mode, value, branches, m, k);
    }
  }

  // ---- scalar branches ----

  predicate TypedScalar(schema: Value)
  {
    UnionBranches(schema).None?
    && (KindOf(schema) == AnInteger || KindOf(schema) == ANumber || KindOf(schema) == ABoolean || KindOf(schema) == ANull)
  }

  predicate StringBranch(schema: Value)
  {
    UnionBranches(schema).None? && KindOf(schema) == AString
  }

  predicate Untyped(schema: Value)
  {
    UnionBranches(schema).None? && KindOf(schema) == Anything
  }

  predicate ScalarBranch(schema: Value)
  {
    TypedScalar(schema) || StringBranch(schema) || Untyped(schema)
  }

  /** What the schema's const and enum let through. */
  predicate Admits(mode: Mode, schema: Value, v: Value)
  {
    ConstAndEnumHold(mode.codec, v, schema)
  }

  /** What a branch of that type reads a text as, before const and enum are looked at. */
  function TextRead(mode: Mode, schema: Value, raw: string): Option<Value>
    requires TypedScalar(schema)
  {
    CoerceType(mode, Str(raw), schema)
  }

  lemma ScalarCoerce(mode: Mode, value: Value, schema: Value)
    requires UnionBranches(schema).None?
    ensures var typed := CoerceType(mode, value, schema);
            Coerce(mode, value, schema) == if typed.Some? && Admits(mode, schema, typed.value) then typed else None
  {
    hide CoerceType, ConstAndEnumHold;
  }

  /** Two typed branches, two string branches, or an untyped branch never unsettle each other. */
  lemma LikeBranchesSettled(mode: Mode, earlier: Value, later: Value)
    requires ScalarBranch(earlier) && ScalarBranch(later)
    requires (TypedScalar(earlier) && TypedScalar(later)) || (StringBranch(earlier) && StringBranch(later))
             || Untyped(earlier) || Untyped(later)
    ensures Settled(mode, earlier, later)
  {
    hide Admits, CoerceType, Coerce, HasType, PrintedScalar;
    forall value ensures SettledFor(mode, value, earlier, later) {
      ScalarCoerce(mode, value, earlier);
      ScalarCoerce(mode, value, later);
      var r := Coerce(mode, value, later);
      if r.Some? {
        ScalarCoerce(mode, r.value, earlier);
        if Untyped(later) {
          UntypedRead(mode, value, later);
        } else if Untyped(earlier) {
          UntypedRead(mode, r.value, earlier);
        } else if StringBranch(later) {
          StringRead(mode, value, earlier);
          StringRead(mode, value, later);
          StringRead(mode, r.value, earlier);
        } else if value.Str? {
          TextNotString(mode, later, value.text);
          NativeRead(mode, r.value, earlier);
        } else {
          NativeRead(mode, value, later);
        }
      }
    }
  }

  lemma UntypedRead(mode: Mode, v: Value, untyped: Value)
    requires Untyped(untyped)
    ensures CoerceType(mode, v, untyped) == Some(v)
  {
  }

  /** A text that is read as an admitted value whose printed text the string branch admits. */
  predicate AnotherTextOfAdmitted(mode: Mode, strings: Value, typed: Value, raw: string)
    requires TypedScalar(typed)
  {
    var x := TextRead(mode, typed, raw);
    && x.Some? && Admits(mode, typed, x.value)
    && PrintedScalar(mode, x.value).Some?
    && Admits(mode, strings, Str(PrintedScalar(mode, x.value).value))
  }

  lemma StringFirstText(mode: Mode, strings: Value, typed: Value, raw: string)
    requires StringBranch(strings) && TypedScalar(typed)
    ensures SettledFor(mode, Str(raw), strings, typed) <==>
            (AnotherTextOfAdmitted(mode, strings, typed, raw) ==> Admits(mode, strings, Str(raw)))
  {
    hide Admits, CoerceType, Coerce, HasType, PrintedScalar;
    ScalarCoerce(mode, Str(raw), strings);
    ScalarCoerce(mode, Str(raw), typed);
    StringRead(mode, Str(raw), strings);
    TextNotString(mode, typed, raw);
    var r := Coerce(mode, Str(raw), typed);
    if r.Some? {
      ScalarCoerce(mode, r.value, strings);
      StringRead(mode, r.value, strings);
    }
  }

  lemma StringFirstNative(mode: Mode, strings: Value, typed: Value, value: Value)
    requires StringBranch(strings) && TypedScalar(typed) && !value.Str?
    ensures SettledFor(mode, value, strings, typed)
  {
    hide ConstAndEnumHold;
    ScalarCoerce(mode, value, typed);
  }

  /** A string branch before a typed one is settled exactly when, of every value of the typed one
      whose printed text it admits, it admits every text that is read as that value. */
  lemma StringFirstIff(mode: Mode, strings: Value, typed: Value)
    requires StringBranch(strings) && TypedScalar(typed)
    ensures Settled(mode, strings, typed) <==>
            forall raw :: AnotherTextOfAdmitted(mode, strings, typed, raw) ==> Admits(mode, strings, Str(raw))
  {
    hide SettledFor, AnotherTextOfAdmitted, Admits, StringBranch, TypedScalar;
    forall value: Value ensures !value.Str? ==> SettledFor(mode, value, strings, typed) {
      if !value.Str? {
        StringFirstNative(mode, strings, typed, value);
      }
    }
    forall raw
      ensures SettledFor(mode, Str(raw), strings, typed) <==>
              (AnotherTextOfAdmitted(mode, strings, typed, raw) ==> Admits(mode, strings, Str(raw)))
    {
      StringFirstText(mode, strings, typed, raw);
    }
    if forall raw :: AnotherTextOfAdmitted(mode, strings, typed, raw) ==> Admits(mode, strings, Str(raw)) {
      forall value ensures SettledFor(mode, value, strings, typed) {
        assert value.Str? ==> value == Str(value.text);
      }
    }
  }

  /** A scalar whose printed text the string branch admits and the typed branch would read. */
  predicate ReadWhenPrinted(mode: Mode, typed: Value, strings: Value, v: Value)
    requires TypedScalar(typed)
  {
    var printed := PrintedScalar(mode, v);
    && printed.Some? && Admits(mode, strings, Str(printed.value))
    && TextRead(mode, typed, printed.value).Some?
    && Admits(mode, typed, TextRead(mode, typed, printed.value).value)
  }

  predicate TakenAsIs(mode: Mode, typed: Value, v: Value)
  {
    HasType(v, KindOf(typed)) && Admits(mode, typed, v)
  }

  lemma StringSecondValue(mode: Mode, typed: Value, strings: Value, v: Value)
    requires TypedScalar(typed) && StringBranch(strings)
    ensures SettledFor(mode, v, typed, strings) <==> (ReadWhenPrinted(mode, typed, strings, v) ==> TakenAsIs(mode, typed, v))
  {
    hide Admits, CoerceType, Coerce, HasType, PrintedScalar;
    ScalarCoerce(mode, v, typed);
    ScalarCoerce(mode, v, strings);
    StringRead(mode, v, strings);
    if v.Str? {
      NoPrint(mode, v);
    } else {
      NativeRead(mode, v, typed);
      var printed := PrintedScalar(mode, v);
      if printed.Some? {
        ScalarCoerce(mode, Str(printed.value), typed);
        TextNotString(mode, typed, printed.value);
      }
    }
  }

  lemma NativeRead(mode: Mode, v: Value, typed: Value)
    requires TypedScalar(typed) && !v.Str?
    ensures CoerceType(mode, v, typed) == if HasType(v, KindOf(typed)) then Some(v) else None
  {
  }

  lemma TextNotString(mode: Mode, typed: Value, raw: string)
    requires TypedScalar(typed)
    ensures var x := TextRead(mode, typed, raw);
            x.Some? ==> !x.value.Str? && PrintedScalar(mode, x.value).Some? && HasType(x.value, KindOf(typed))
  {
  }

  lemma StringRead(mode: Mode, v: Value, strings: Value)
    requires StringBranch(strings)
    ensures var printed := PrintedScalar(mode, v);
            CoerceType(mode, v, strings) == if v.Str? then Some(v)
                                            else if printed.Some? then Some(Str(printed.value)) else None
  {
  }

  /** A typed branch before a string branch is settled exactly when it takes as it is every scalar
      that it would read once it is printed. */
  lemma StringSecondIff(mode: Mode, typed: Value, strings: Value)
    requires TypedScalar(typed) && StringBranch(strings)
    ensures Settled(mode, typed, strings) <==>
            forall v :: ReadWhenPrinted(mode, typed, strings, v) ==> TakenAsIs(mode, typed, v)
  {
    hide SettledFor, ReadWhenPrinted, TakenAsIs, StringBranch, TypedScalar;
    forall v
      ensures SettledFor(mode, v, typed, strings) <==> (ReadWhenPrinted(mode, typed, strings, v) ==> TakenAsIs(mode, typed, v))
    {
      StringSecondValue(mode, typed, strings, v);
    }
  }

  // ---- what this means for a schema ----

  predicate Restricted(schema: Value)
  {
    Lookup(schema, "const").Some? || LookupArray(schema, "enum").Some?
  }

  /** A string branch with neither const nor enum unsettles nothing after it. */
  lemma FreeStringFirst(mode: Mode, strings: Value, typed: Value)
    requires StringBranch(strings) && !Restricted(strings) && TypedScalar(typed)
    ensures Settled(mode, strings, typed)
  {
    hide TextRead, StringBranch, TypedScalar;
    StringFirstIff(mode, strings, typed);
  }

  /** A number branch with neither const nor enum unsettles no string branch after it, when the words
      `true`, `false` and `null` are not read as numbers. */
  lemma FreeNumberFirst(mode: Mode, number: Value, strings: Value)
    requires TypedScalar(number) && KindOf(number) == ANumber && !Restricted(number) && StringBranch(strings)
    requires mode.codec.parseFloat("true").None? && mode.codec.parseFloat("false").None? && mode.codec.parseFloat("null").None?
    ensures Settled(mode, number, strings)
  {
    hide StringBranch;
    StringSecondIff(mode, number, strings);
    forall v | ReadWhenPrinted(mode, number, strings, v) ensures TakenAsIs(mode, number, v) {
      assert v.Num?;
    }
  }

  /** An integer written in another way than `avoided`: with one or two leading zeros. */
  lemma AnotherIntegerText(n: int, avoided: string) returns (raw: string)
    requires -Text.I64_LIMIT <= n < Text.I64_LIMIT
    ensures raw != avoided && Text.ParseI64(raw) == Some(n)
  {
    hide Text.ParseI64, Text.DigitsValue, Text.ShowNat;
    var digits := Text.ShowNat(if n < 0 then -n else n);
    var one, two := "0" + digits, "0" + ("0" + digits);
    LeadingZero(digits);
    LeadingZero(one);
    SignedParsed(n, one);
    SignedParsed(n, two);
    raw := (if n < 0 then "-" else "") + one;
    if raw == avoided {
      raw := (if n < 0 then "-" else "") + two;
      assert |raw| == |avoided| + 1;
    }
  }

  lemma {:induction false} LeadingZero(digits: string)
    requires Text.AllDigits(digits)
    ensures Text.AllDigits("0" + digits) && Text.DigitsValue("0" + digits) == Text.DigitsValue(digits)
    decreases |digits|
  {
    var padded := "0" + digits;
    if digits == "" {
      assert padded[..0] == "";
    } else {
      LeadingZero(digits[..|digits| - 1]);
      assert padded[..|padded| - 1] == "0" + digits[..|digits| - 1];
    }
  }

  lemma SignedParsed(n: int, digits: string)
    requires -Text.I64_LIMIT <= n < Text.I64_LIMIT
    requires digits != "" && Text.AllDigits(digits) && Text.DigitsValue(digits) == if n < 0 then -n else n
    ensures Text.ParseI64((if n < 0 then "-" else "") + digits) == Some(n)
  {
    var text := (if n < 0 then "-" else "") + digits;
    if n < 0 {
      assert text[1..] == digits;
    } else {
      assert text == digits && Text.IsDigit(digits[0]);
    }
  }

  /** `oneOf [{string, const c}, {integer, ...}]` is stable exactly when `c` is not the printed text of an
      integer that the second branch admits. */
  lemma StringConstThenIntegerIff(mode: Mode, schema: Value, strings: Value, integers: Value, c: string)
    requires UnionBranches(schema) == Some([strings, integers]) && UnionFree(strings) && UnionFree(integers)
    requires StringBranch(strings) && Lookup(strings, "const") == Some(Str(c)) && LookupArray(strings, "enum").None?
    requires TypedScalar(integers) && KindOf(integers) == AnInteger
    ensures Stable(mode, schema) <==>
            forall n :: -Text.I64_LIMIT <= n < Text.I64_LIMIT && mode.codec.showNumber(Int(n)) == c ==>
              !Admits(mode, integers, Num(Int(n)))
  {
    hide Stable, Settled, UnionFree, UnionBranches;
    TwoBranchesIff(mode, schema, strings, integers);
    StringFirstIff(mode, strings, integers);
    forall n | -Text.I64_LIMIT <= n < Text.I64_LIMIT && mode.codec.showNumber(Int(n)) == c && Admits(mode, integers, Num(Int(n)))
      ensures exists raw :: AnotherTextOfAdmitted(mode, strings, integers, raw) && !Admits(mode, strings, Str(raw))
    {
      var raw := AnotherIntegerText(n, c);
      assert AnotherTextOfAdmitted(mode, strings, integers, raw) && !Admits(mode, strings, Str(raw));
    }
  }

  /** `oneOf [{number, const f}, {string}]` is stable exactly when `f` itself is the only scalar whose
      printed text is read as `f`. */
  lemma NumberConstThenStringIff(mode: Mode, schema: Value, numbers: Value, strings: Value, f: real)
    requires UnionBranches(schema) == Some([numbers, strings]) && UnionFree(numbers) && UnionFree(strings)
    requires TypedScalar(numbers) && KindOf(numbers) == ANumber
    requires Lookup(numbers, "const") == Some(Num(Float(f))) && LookupArray(numbers, "enum").None?
    requires StringBranch(strings) && !Restricted(strings)
    ensures Stable(mode, schema) <==>
            forall v :: PrintedScalar(mode, v).Some? && mode.codec.parseFloat(PrintedScalar(mode, v).value) == Some(f) ==>
              v == Num(Float(f))
  {
    hide Stable, Settled, UnionFree, UnionBranches;
    TwoBranchesIff(mode, schema, numbers, strings);
    StringSecondIff(mode, numbers, strings);
    forall v
      ensures ReadWhenPrinted(mode, numbers, strings, v) <==>
              PrintedScalar(mode, v).Some? && mode.codec.parseFloat(PrintedScalar(mode, v).value) == Some(f)
      ensures TakenAsIs(mode, numbers, v) <==> v == Num(Float(f))
    {
    }
  }

  /** All branches scalars: the union is stable when every string branch that stands beside a typed one
      meets its condition. */
  lemma ScalarUnionStable(mode: Mode, schema: Value)
    requires UnionFreeBranches(schema)
    requires var branches := UnionBranches(schema).value;
             && (forall i :: 0 <= i < |branches| ==> ScalarBranch(branches[i]))
             && forall m, k :: 0 <= m < k < |branches| ==>
                  && (StringBranch(branches[m]) && TypedScalar(branches[k]) ==>
                        forall raw :: AnotherTextOfAdmitted(mode, branches[m], branches[k], raw) ==> Admits(mode, branches[m], Str(raw)))
                  && (TypedScalar(branches[m]) && StringBranch(branches[k]) ==>
                        forall v :: ReadWhenPrinted(mode, branches[m], branches[k], v) ==> TakenAsIs(mode, branches[m], v))
    ensures Stable(mode, schema)
  {
    hide Settled, Stable, AnotherTextOfAdmitted, Admits, ReadWhenPrinted, TakenAsIs, UnionFree;
    var branches := UnionBranches(schema).value;
    forall m, k | 0 <= m < k < |branches| ensures Settled(mode, branches[m], branches[k]) {
      if StringBranch(branches[m]) && TypedScalar(branches[k]) {
        StringFirstIff(mode, branches[m], branches[k]);
      } else if TypedScalar(branches[m]) && StringBranch(branches[k]) {
        StringSecondIff(mode, branches[m], branches[k]);
      } else {
        LikeBranchesSettled(mode, branches[m], branches[k]);
      }
    }
    SettledUnionStable(mode, schema);
  }

  // ---- scalar branches, exactly ----

  /** A text that every branch before `k` refuses, that `k` reads as a value, and whose value the string
      branch `m` is the first to accept: printed. */
  predicate TextTakenOver(mode: Mode, branches: seq<Value>, m: nat, k: nat, raw: string)
    requires m < k < |branches| && TypedScalar(branches[k])
  {
    && Refused(mode, Str(raw), branches, k)
    && AnotherTextOfAdmitted(mode, branches[m], branches[k], raw)
    && Refused(mode, TextRead(mode, branches[k], raw).value, branches, m)
  }

  /** A scalar that every branch before the string branch `k` refuses, and whose printed text the typed
      branch `m` is the first to accept. */
  predicate ScalarTakenOver(mode: Mode, branches: seq<Value>, m: nat, k: nat, v: Value)
    requires m < k < |branches| && TypedScalar(branches[m])
  {
    && Refused(mode, v, branches, k)
    && ReadWhenPrinted(mode, branches[m], branches[k], v)
    && Refused(mode, Str(PrintedScalar(mode, v).value), branches, m)
  }

  lemma AmongIs(mode: Mode, value: Value, branches: seq<Value>, m: nat, k: nat)
    requires m < k < |branches|
    ensures var r := Coerce(mode, value, branches[k]);
            SettledAmong(mode, value, branches, m, k) <==>
            (Refused(mode, value, branches, k) && r.Some? && Refused(mode, r.value, branches, m) ==>
               SettledFor(mode, value, branches[m], branches[k]))
  {
    hide Coerce;
  }

  lemma TextAmong(mode: Mode, branches: seq<Value>, m: nat, k: nat, value: Value)
    requires m < k < |branches| && StringBranch(branches[m]) && TypedScalar(branches[k])
    ensures SettledAmong(mode, value, branches, m, k) <==> (value.Str? ==> !TextTakenOver(mode, branches, m, k, value.text))
  {
    hide Coerce, CoerceType, Admits, SettledFor, SettledAmong, PrintedScalar;
    AmongIs(mode, value, branches, m, k);
    if value.Str? {
      StringFirstText(mode, branches[m], branches[k], value.text);
      ScalarCoerce(mode, value, branches[k]);
      ScalarCoerce(mode, value, branches[m]);
      StringRead(mode, value, branches[m]);
    } else {
      StringFirstNative(mode, branches[m], branches[k], value);
    }
  }

  lemma ScalarAmong(mode: Mode, branches: seq<Value>, m: nat, k: nat, v: Value)
    requires m < k < |branches| && TypedScalar(branches[m]) && StringBranch(branches[k])
    ensures SettledAmong(mode, v, branches, m, k) <==> !ScalarTakenOver(mode, branches, m, k, v)
  {
    hide Coerce, CoerceType, Admits, SettledFor, SettledAmong, PrintedScalar, HasType;
    AmongIs(mode, v, branches, m, k);
    StringSecondValue(mode, branches[m], branches[k], v);
    ScalarCoerce(mode, v, branches[k]);
    ScalarCoerce(mode, v, branches[m]);
    StringRead(mode, v, branches[k]);
    if v.Str? {
      NoPrint(mode, v);
    } else {
      NativeRead(mode, v, branches[m]);
    }
  }

  lemma NoPrint(mode: Mode, v: Value)
    requires v.Str?
    ensures PrintedScalar(mode, v).None?
  {
  }

  /** A union of any number of scalar branches is stable exactly when no text and no scalar is taken
      over: a string branch by a typed one or the other way round. */
  lemma ScalarUnionStableIff(mode: Mode, schema: Value)
    requires UnionFreeBranches(schema)
    requires forall i :: 0 <= i < |UnionBranches(schema).value| ==> ScalarBranch(UnionBranches(schema).value[i])
    ensures var branches := UnionBranches(schema).value;
            Stable(mode, schema) <==>
            && (forall m: nat, k: nat, raw :: m < k < |branches| && StringBranch(branches[m]) && TypedScalar(branches[k]) ==>
                  !TextTakenOver(mode, branches, m, k, raw))
            && (forall m: nat, k: nat, v :: m < k < |branches| && TypedScalar(branches[m]) && StringBranch(branches[k]) ==>
                  !ScalarTakenOver(mode, branches, m, k, v))
  {
    hide Stable, TextTakenOver, ScalarTakenOver, SettledAmong, UnionFree, StringBranch, TypedScalar, ScalarBranch;
    var branches := UnionBranches(schema).value;
    ManyBranchesIff(mode, schema);
    forall m: nat, k: nat, raw | m < k < |branches| && StringBranch(branches[m]) && TypedScalar(branches[k])
      ensures SettledAmong(mode, Str(raw), branches, m, k) <==> !TextTakenOver(mode, branches, m, k, raw)
    {
      TextAmong(mode, branches, m, k, Str(raw));
    }
    forall m: nat, k: nat, v | m < k < |branches| && TypedScalar(branches[m]) && StringBranch(branches[k])
      ensures SettledAmong(mode, v, branches, m, k) <==> !ScalarTakenOver(mode, branches, m, k, v)
    {
      ScalarAmong(mode, branches, m, k, v);
    }
    forall m: nat, k: nat, v: Value | m < k < |branches|
      ensures StringBranch(branches[m]) && TypedScalar(branches[k]) && !v.Str? ==> SettledAmong(mode, v, branches, m, k)
      ensures !(StringBranch(branches[m]) && TypedScalar(branches[k])) && !(TypedScalar(branches[m]) && StringBranch(branches[k]))
              ==> SettledAmong(mode, v, branches, m, k)
    {
      if StringBranch(branches[m]) && TypedScalar(branches[k]) {
        TextAmong(mode, branches, m, k, v);
      } else if !(TypedScalar(branches[m]) && StringBranch(branches[k])) {
        LikeAmong(mode, branches, m, k, v);
      }
    }
  }

  lemma LikeAmong(mode: Mode, branches: seq<Value>, m: nat, k: nat, v: Value)
    requires m < k < |branches| && ScalarBranch(branches[m]) && ScalarBranch(branches[k])
    requires !(StringBranch(branches[m]) && TypedScalar(branches[k])) && !(TypedScalar(branches[m]) && StringBranch(branches[k]))
    ensures SettledAmong(mode, v, branches, m, k)
  {
    hide Coerce, SettledFor, SettledAmong, Refused;
    LikeBranchesSettled(mode, branches[m], branches[k]);
    AmongIs(mode, v, branches, m, k);
  }

  // ---- a string enum before an integer ----

  /** A text is read as a floating-point number of the list. */
  predicate ReadsAsFloatOf(mode: Mode, raw: string, candidates: seq<Value>)
  {
    exists i :: 0 <= i < |candidates| && candidates[i].Num? && candidates[i].number.Float?
                && mode.codec.parseFloat(raw) == Some(candidates[i].number.value)
  }

  /** Of every text of an integer, an enum holds the text itself, the integer, or a floating-point number
      that the text is read as. */
  lemma IntegerTextInEnum(mode: Mode, raw: string, candidates: seq<Value>)
    requires Text.ParseI64(raw).Some?
    ensures InEnum(mode.codec, Str(raw), candidates) <==>
            Str(raw) in candidates || Num(Int(Text.ParseI64(raw).value)) in candidates || ReadsAsFloatOf(mode, raw, candidates)
  {
    IntegerTextNoWord(raw);
    hide Text.ParseI64, BooleanText, Text.EqIgnoreAsciiCase;
    var n := Text.ParseI64(raw).value;
    forall i | 0 <= i < |candidates|
      ensures LiteralLike(mode.codec, raw, candidates[i]) == Some(candidates[i]) <==>
              || candidates[i] == Str(raw) || candidates[i] == Num(Int(n))
              || (candidates[i].Num? && candidates[i].number.Float? && mode.codec.parseFloat(raw) == Some(candidates[i].number.value))
    {
    }
  }

  lemma IntegerTextNoWord(raw: string)
    requires Text.ParseI64(raw).Some?
    ensures BooleanText(raw).None? && !Text.EqIgnoreAsciiCase(raw, "null")
  {
    var last := |raw| - 1;
    var digits := if raw != "" && (raw[0] == '+' || raw[0] == '-') then raw[1..] else raw;
    assert digits[|digits| - 1] == raw[last] && Text.IsDigit(digits[|digits| - 1]);
    assert "true"[3] == 'e' && "false"[4] == 'e' && "null"[3] == 'l';
  }

  /** Longer and longer texts of an integer. */
  lemma {:induction false} LongIntegerDigits(digits: string, length: nat) returns (longer: string)
    requires digits != "" && Text.AllDigits(digits)
    ensures |longer| > length && Text.AllDigits(longer) && Text.DigitsValue(longer) == Text.DigitsValue(digits)
    decreases length - |digits|
  {
    longer := digits;
    if |digits| <= length {
      LeadingZero(digits);
      longer := LongIntegerDigits("0" + digits, length);
    }
  }

  lemma LongIntegerText(n: int, length: nat) returns (raw: string)
    requires -Text.I64_LIMIT <= n < Text.I64_LIMIT
    ensures |raw| > length && Text.ParseI64(raw) == Some(n)
  {
    hide Text.ParseI64, Text.DigitsValue, Text.ShowNat;
    var digits := LongIntegerDigits(Text.ShowNat(if n < 0 then -n else n), length);
    SignedParsed(n, digits);
    raw := (if n < 0 then "-" else "") + digits;
  }

  lemma {:induction false} LongestText(candidates: seq<Value>) returns (length: nat)
    ensures forall c :: c in candidates && c.Str? ==> |c.text| <= length
  {
    length := 0;
    if candidates != [] {
      length := LongestText(candidates[1..]);
      assert candidates == [candidates[0]] + candidates[1..];
      if candidates[0].Str? && |candidates[0].text| > length {
        length := |candidates[0].text|;
      }
    }
  }

  /** Every text of an integer that the enum does not hold itself is read as one of its floating-point
      numbers. */
  ghost predicate FloatsCover(mode: Mode, n: int, candidates: seq<Value>)
  {
    forall raw :: Text.ParseI64(raw) == Some(n) && Str(raw) !in candidates ==> ReadsAsFloatOf(mode, raw, candidates)
  }

  /** An enum without floating-point numbers never covers an integer, as it has infinitely many texts. */
  lemma NoFloatsNoCover(mode: Mode, n: int, candidates: seq<Value>)
    requires -Text.I64_LIMIT <= n < Text.I64_LIMIT
    requires forall c :: c in candidates ==> !(c.Num? && c.number.Float?)
    ensures !FloatsCover(mode, n, candidates)
  {
    var length := LongestText(candidates);
    var raw := LongIntegerText(n, length);
    assert Text.ParseI64(raw) == Some(n) && Str(raw) !in candidates && !ReadsAsFloatOf(mode, raw, candidates);
  }

  /** An integer that the integer branch admits and whose printed text the enum admits. */
  predicate SharedInteger(mode: Mode, n: int, candidates: seq<Value>, integers: Value)
  {
    && -Text.I64_LIMIT <= n < Text.I64_LIMIT && Admits(mode, integers, Num(Int(n)))
    && InEnum(mode.codec, Str(mode.codec.showNumber(Int(n))), candidates)
  }

  /** `oneOf [{string, enum [...]}, {integer, ...}]` is stable exactly when the enum holds every integer
      that both branches admit, as a number or through its floating-point numbers. */
  lemma StringEnumThenIntegerIff(mode: Mode, schema: Value, strings: Value, integers: Value, candidates: seq<Value>)
    requires UnionBranches(schema) == Some([strings, integers]) && UnionFree(strings) && UnionFree(integers)
    requires StringBranch(strings) && Lookup(strings, "const").None? && LookupArray(strings, "enum") == Some(candidates)
    requires TypedScalar(integers) && KindOf(integers) == AnInteger
    ensures Stable(mode, schema) <==>
            forall n :: SharedInteger(mode, n, candidates, integers) ==> Num(Int(n)) in candidates || FloatsCover(mode, n, candidates)
    ensures (forall c :: c in candidates ==> !(c.Num? && c.number.Float?)) ==>
            (Stable(mode, schema) <==> forall n :: SharedInteger(mode, n, candidates, integers) ==> Num(Int(n)) in candidates)
  {
    hide Stable, Settled, UnionFree, UnionBranches, InEnum, FloatsCover, SharedInteger, AnotherTextOfAdmitted;
    TwoBranchesIff(mode, schema, strings, integers);
    StringFirstIff(mode, strings, integers);
    forall raw
      ensures AnotherTextOfAdmitted(mode, strings, integers, raw) <==>
              Text.ParseI64(raw).Some? && SharedInteger(mode, Text.ParseI64(raw).value, candidates, integers)
      ensures Text.ParseI64(raw).Some? ==>
              (Admits(mode, strings, Str(raw)) <==>
               Str(raw) in candidates || Num(Int(Text.ParseI64(raw).value)) in candidates || ReadsAsFloatOf(mode, raw, candidates))
    {
      EnumText(mode, strings, integers, candidates, raw);
    }
    Coverage(mode, strings, integers, candidates);
    forall n | SharedInteger(mode, n, candidates, integers) && forall c :: c in candidates ==> !(c.Num? && c.number.Float?)
      ensures !FloatsCover(mode, n, candidates)
    {
      SharedInRange(mode, n, candidates, integers);
      NoFloatsNoCover(mode, n, candidates);
    }
  }

  lemma SharedInRange(mode: Mode, n: int, candidates: seq<Value>, integers: Value)
    requires SharedInteger(mode, n, candidates, integers)
    ensures -Text.I64_LIMIT <= n < Text.I64_LIMIT
  {
  }

  lemma EnumText(mode: Mode, strings: Value, integers: Value, candidates: seq<Value>, raw: string)
    requires StringBranch(strings) && Lookup(strings, "const").None? && LookupArray(strings, "enum") == Some(candidates)
    requires TypedScalar(integers) && KindOf(integers) == AnInteger
    ensures AnotherTextOfAdmitted(mode, strings, integers, raw) <==>
            Text.ParseI64(raw).Some? && SharedInteger(mode, Text.ParseI64(raw).value, candidates, integers)
    ensures Text.ParseI64(raw).Some? ==>
            (Admits(mode, strings, Str(raw)) <==>
             Str(raw) in candidates || Num(Int(Text.ParseI64(raw).value)) in candidates || ReadsAsFloatOf(mode, raw, candidates))
  {
    hide InEnum, Text.ParseI64, ReadsAsFloatOf;
    if Text.ParseI64(raw).Some? {
      IntegerTextInEnum(mode, raw, candidates);
    }
  }

  lemma Coverage(mode: Mode, strings: Value, integers: Value, candidates: seq<Value>)
    requires TypedScalar(integers)
    requires forall raw ::
               AnotherTextOfAdmitted(mode, strings, integers, raw) <==>
               Text.ParseI64(raw).Some? && SharedInteger(mode, Text.ParseI64(raw).value, candidates, integers)
    requires forall raw :: Text.ParseI64(raw).Some? ==>
               (Admits(mode, strings, Str(raw)) <==>
                Str(raw) in candidates || Num(Int(Text.ParseI64(raw).value)) in candidates || ReadsAsFloatOf(mode, raw, candidates))
    ensures (forall raw :: AnotherTextOfAdmitted(mode, strings, integers, raw) ==> Admits(mode, strings, Str(raw))) <==>
            forall n :: SharedInteger(mode, n, candidates, integers) ==> Num(Int(n)) in candidates || FloatsCover(mode, n, candidates)
  {
    hide AnotherTextOfAdmitted, Admits, SharedInteger, Text.ParseI64, ReadsAsFloatOf;
  }

  /** `oneOf [{type: number, const: 5.0}, {type: string}]` */
  function FiveFloatOrString(): Value
  {
    Object(map["oneOf" := Array([
      Object(map["type" := Str("number"), "const" := Num(Float(5.0))]),
      Object(map["type" := Str("string")])])])
  }

  /** It turns 5 into "5" and then "5" into 5.0, when 5 is shown as "5" and "5" is read as 5.0. */
  lemma NumberThenStringUnstable(mode: Mode)
    requires mode.codec.showNumber(Int(5)) == "5" && mode.codec.parseFloat("5") == Some(5.0)
    ensures Coerce(mode, Num(Int(5)), FiveFloatOrString()) == Some(Str("5"))
    ensures Coerce(mode, Str("5"), FiveFloatOrString()) == Some(Num(Float(5.0)))
  {
    hide FiveFloatOrString, Coerce, CoerceType;
    var branches := FiveFloatOrStringBranches();
    FirstOfTwo(mode, Num(Int(5)), FiveFloatOrString(), branches);
    FirstOfTwo(mode, Str("5"), FiveFloatOrString(), branches);
    FiveFloat(mode, branches[0]);
    AnyString(mode, branches[1]);
  }

  lemma FiveFloatOrStringBranches() returns (branches: seq<Value>)
    ensures UnionBranches(FiveFloatOrString()) == Some(branches) && |branches| == 2
    ensures branches[0] == Object(map["type" := Str("number"), "const" := Num(Float(5.0))])
    ensures branches[1] == Object(map["type" := Str("string")])
  {
    branches := UnionBranches(FiveFloatOrString()).value;
  }

  lemma FiveFloat(mode: Mode, schema: Value)
    requires mode.codec.parseFloat("5") == Some(5.0)
    requires schema == Object(map["type" := Str("number"), "const" := Num(Float(5.0))])
    ensures Coerce(mode, Num(Int(5)), schema).None? && Coerce(mode, Str("5"), schema) == Some(Num(Float(5.0)))
  {
    assert UnionBranches(schema).None? && KindOf(schema) == ANumber;
    assert Coerce(mode, Num(Int(5)), schema).None?;
  }

  lemma AnyString(mode: Mode, schema: Value)
    requires mode.codec.showNumber(Int(5)) == "5" && schema == Object(map["type" := Str("string")])
    ensures Coerce(mode, Num(Int(5)), schema) == Some(Str("5"))
  {
    assert UnionBranches(schema).None? && KindOf(schema) == AString;
  }
}
