/** The ways in which a value may be written for a schema (src/arg_coercion.rs). */
module CoercionForms {
  import opened Wrappers
  import opened Json
  import opened Coercion
  import Text
  import Arguments
  import ArgumentRoundTrip

  // Natively or as text, in any mixture, at any depth: coercion reads all of them as the same value.

  function ShowInt(n: int): string
  {
    if n < 0 then "-" + Text.ShowNat(-n) else Text.ShowNat(n)
  }

  lemma ShownIntParsed(n: int)
    requires -Text.I64_LIMIT <= n < Text.I64_LIMIT
    ensures Text.ParseI64(ShowInt(n)) == Some(n)
  {
    var digits := Text.ShowNat(if n < 0 then -n else n);
    assert Text.IsDigit(digits[0]);
    assert n < 0 ==> ShowInt(n)[1..] == digits;
  }

  /** `raw` is one way of writing `v` where `schema` says what is meant. */
  ghost predicate Writes(mode: Mode, raw: Value, v: Value, schema: Value)
    decreases schema, 1
  {
    match KindOf(schema)
    case AnInteger => v.Num? && v.number.Int? && (raw == v || (raw.Str? && Text.ParseI64(raw.text) == Some(v.number.whole)))
    case ANumber =>
      v.Num? && (raw == v || (raw.Str? && v.number.Float? && mode.codec.parseFloat(raw.text) == Some(v.number.value)))
    case ABoolean => v.Bool? && (raw == v || (raw.Str? && Text.EqIgnoreAsciiCase(raw.text, Spelled(v.truth))))
    case ANull => v.Null? && (raw == v || (raw.Str? && Text.EqIgnoreAsciiCase(raw.text, "null")))
    case AString => v.Str? && (raw == v || PrintedScalar(mode, raw) == Some(v.text))
    case AnObject =>
      v.Object? && exists fields :: AsTree(mode, raw, Object(fields)) && FieldsWrite(mode, fields, v.fields, schema)
    case AnArray =>
      v.Array? && exists items :: AsTree(mode, raw, Array(items)) && ItemsWrite(mode, items, v.items, schema)
    case Anything => raw == v
  }

  function Spelled(truth: bool): string
  {
    if truth then "true" else "false"
  }

  /** The text a number, a boolean or null has where a string is meant. */
  function PrintedScalar(mode: Mode, raw: Value): Option<string>
  {
    match raw
    case Num(number) => Some(mode.codec.showNumber(number))
    case Bool(truth) => Some(Spelled(truth))
    case Null => Some("null")
    case _ => None
  }

  /** A tree is written as itself or as any JSON text of it. */
  predicate AsTree(mode: Mode, raw: Value, tree: Value)
  {
    raw == tree || (raw.Str? && mode.codec.parse(raw.text) == Some(tree))
  }

  ghost predicate FieldsWrite(mode: Mode, raw: map<string, Value>, fields: map<string, Value>, schema: Value)
    decreases schema, 0, 0
  {
    raw.Keys == fields.Keys
    && forall k :: k in fields ==>
         if k in Properties(schema) then Writes(mode, raw[k], fields[k], Properties(schema)[k]) else raw[k] == fields[k]
  }

  ghost predicate ItemsWrite(mode: Mode, raw: seq<Value>, items: seq<Value>, schema: Value)
    decreases schema, 0, 0
  {
    |raw| == |items|
    && forall i :: 0 <= i < |items| ==>
         if Lookup(schema, "items").Some? then Writes(mode, raw[i], items[i], Lookup(schema, "items").value)
         else raw[i] == items[i]
  }

  // ---- every form is read ----

  /** However a value that meets the schema is written, coercion gives that value. */
  lemma {:induction false} WrittenFormsRead(mode: Mode, raw: Value, v: Value, schema: Value)
    requires UnionFree(schema) && Conforms(mode, v, schema) && Writes(mode, raw, v, schema)
    ensures Coerce(mode, raw, schema) == Some(v)
    decreases schema, 1
  {
    hide FieldsWrite, ItemsWrite, UnionFree, Conforms, CoerceType, Coerce, AsTree;
    match KindOf(schema) {
      case AnObject =>
        TypeIs(mode, v, schema);
        var fields :| AsTree(mode, raw, Object(fields)) && FieldsWrite(mode, fields, v.fields, schema);
        TreeOpened(mode, raw, Object(fields));
        FieldsRead(mode, fields, v.fields, schema);
        ObjectType(mode, raw, fields, schema);
      case AnArray =>
        TypeIs(mode, v, schema);
        var items :| AsTree(mode, raw, Array(items)) && ItemsWrite(mode, items, v.items, schema);
        TreeOpened(mode, raw, Array(items));
        ItemsRead(mode, items, v.items, schema);
        ArrayType(mode, raw, items, schema);
      case _ =>
        ScalarType(mode, raw, v, schema);
    }
    AcceptedType(mode, raw, v, schema);
  }

  lemma TypeIs(mode: Mode, v: Value, schema: Value)
    requires UnionFree(schema) && Conforms(mode, v, schema)
    ensures HasType(v, KindOf(schema))
  {
  }

  lemma ObjectType(mode: Mode, raw: Value, fields: map<string, Value>, schema: Value)
    requires KindOf(schema) == AnObject && Opened(mode.codec, raw) == Some(Object(fields)) && HasRequired(mode, schema, fields)
    ensures CoerceType(mode, raw, schema) == CoerceFields(mode, fields, schema)
  {
  }

  lemma ArrayType(mode: Mode, raw: Value, items: seq<Value>, schema: Value)
    requires KindOf(schema) == AnArray && Opened(mode.codec, raw) == Some(Array(items))
    ensures CoerceType(mode, raw, schema) == CoerceItems(mode, items, schema)
  {
  }

  /** The forms of a scalar are exactly what the scalar coercers read. */
  lemma ScalarType(mode: Mode, raw: Value, v: Value, schema: Value)
    requires KindOf(schema) != AnObject && KindOf(schema) != AnArray
    ensures CoerceType(mode, raw, schema) == Some(v) <==> Writes(mode, raw, v, schema)
  {
    BooleanTexts(raw);
  }

  lemma BooleanTexts(raw: Value)
    ensures raw.Str? ==> forall truth :: BooleanText(raw.text) == Some(truth) <==> Text.EqIgnoreAsciiCase(raw.text, Spelled(truth))
  {
    assert |"true"| != |"false"|;
  }

  lemma AcceptedType(mode: Mode, raw: Value, v: Value, schema: Value)
    requires UnionFree(schema) && Conforms(mode, v, schema) && CoerceType(mode, raw, schema) == Some(v)
    ensures Coerce(mode, raw, schema) == Some(v)
  {
    hide CoerceType, ConstAndEnumHold, HasType, HasRequired;
  }

  lemma TreeOpened(mode: Mode, raw: Value, tree: Value)
    requires AsTree(mode, raw, tree) && (tree.Object? || tree.Array?)
    ensures Opened(mode.codec, raw) == Some(tree)
  {
  }

  lemma FieldsRead(mode: Mode, raw: map<string, Value>, fields: map<string, Value>, schema: Value)
    requires UnionFree(schema) && KindOf(schema) == AnObject
    requires Conforms(mode, Object(fields), schema) && FieldsWrite(mode, raw, fields, schema)
    ensures HasRequired(mode, schema, raw)
    ensures CoerceFields(mode, raw, schema) == Some(Object(fields))
    decreases schema, 0, 0
  {
    hide ConstAndEnumHold, Writes;
    RequiredByKeys(mode, schema, raw, fields);
    forall k | k in fields ensures CoerceField(mode, k, raw[k], schema) == Some(fields[k]) {
      FieldIs(mode, k, raw[k], schema);
      if k in Properties(schema) {
        WrittenFormsRead(mode, raw[k], fields[k], Properties(schema)[k]);
      }
    }
    FieldsAre(mode, raw, schema, fields);
  }

  lemma ItemsRead(mode: Mode, raw: seq<Value>, items: seq<Value>, schema: Value)
    requires UnionFree(schema) && KindOf(schema) == AnArray
    requires Conforms(mode, Array(items), schema) && ItemsWrite(mode, raw, items, schema)
    ensures CoerceItems(mode, raw, schema) == Some(Array(items))
    decreases schema, 0, 0
  {
    hide ConstAndEnumHold, Writes;
    forall i | 0 <= i < |items| ensures CoerceItem(mode, raw[i], schema) == Some(items[i]) {
      if Lookup(schema, "items").Some? {
        WrittenFormsRead(mode, raw[i], items[i], Lookup(schema, "items").value);
      }
    }
    assert CoerceItems(mode, raw, schema).value.items == items;
  }

  // ---- and nothing else is ----

  lemma {:induction false} ReadFormsWritten(mode: Mode, raw: Value, schema: Value)
    requires UnionFree(schema) && Coerce(mode, raw, schema).Some?
    ensures Writes(mode, raw, Coerce(mode, raw, schema).value, schema)
    decreases schema, 1
  {
    hide FieldsWrite, ItemsWrite, CoerceType, Coerce, AsTree, UnionFree;
    TypeOf(mode, raw, schema);
    match KindOf(schema) {
      case AnObject =>
        var fields := ObjectOpened(mode, raw, schema);
        FieldsWritten(mode, fields, schema);
        assert AsTree(mode, raw, Object(fields));
      case AnArray =>
        var items := ArrayOpened(mode, raw, schema);
        ItemsWritten(mode, items, schema);
        assert AsTree(mode, raw, Array(items));
      case _ =>
        ScalarType(mode, raw, Coerce(mode, raw, schema).value, schema);
    }
  }

  lemma TypeOf(mode: Mode, raw: Value, schema: Value)
    requires UnionFree(schema) && Coerce(mode, raw, schema).Some?
    ensures CoerceType(mode, raw, schema) == Coerce(mode, raw, schema)
  {
    hide CoerceType, ConstAndEnumHold;
  }

  lemma ObjectOpened(mode: Mode, raw: Value, schema: Value) returns (fields: map<string, Value>)
    requires KindOf(schema) == AnObject && CoerceType(mode, raw, schema).Some?
    ensures AsTree(mode, raw, Object(fields)) && CoerceType(mode, raw, schema) == CoerceFields(mode, fields, schema)
  {
    hide CoerceFields;
    fields := Opened(mode.codec, raw).value.fields;
  }

  lemma ArrayOpened(mode: Mode, raw: Value, schema: Value) returns (items: seq<Value>)
    requires KindOf(schema) == AnArray && CoerceType(mode, raw, schema).Some?
    ensures AsTree(mode, raw, Array(items)) && CoerceType(mode, raw, schema) == CoerceItems(mode, items, schema)
  {
    hide CoerceItems;
    items := Opened(mode.codec, raw).value.items;
  }

  lemma FieldsWritten(mode: Mode, raw: map<string, Value>, schema: Value)
    requires UnionFree(schema) && CoerceFields(mode, raw, schema).Some?
    ensures FieldsWrite(mode, raw, CoerceFields(mode, raw, schema).value.fields, schema)
    decreases schema, 0, 0
  {
    hide Writes, Coerce;
    var fields := CoerceFields(mode, raw, schema).value.fields;
    forall k | k in fields
      ensures if k in Properties(schema) then Writes(mode, raw[k], fields[k], Properties(schema)[k]) else raw[k] == fields[k]
    {
      FieldIs(mode, k, raw[k], schema);
      if k in Properties(schema) {
        ReadFormsWritten(mode, raw[k], Properties(schema)[k]);
      }
    }
  }

  lemma ItemsWritten(mode: Mode, raw: seq<Value>, schema: Value)
    requires UnionFree(schema) && CoerceItems(mode, raw, schema).Some?
    ensures ItemsWrite(mode, raw, CoerceItems(mode, raw, schema).value.items, schema)
    decreases schema, 0, 0
  {
    hide Writes, Coerce;
    var items := CoerceItems(mode, raw, schema).value.items;
    forall i | 0 <= i < |items| && Lookup(schema, "items").Some?
      ensures Writes(mode, raw[i], items[i], Lookup(schema, "items").value)
    {
      assert CoerceItem(mode, raw[i], schema) == Some(items[i]);
      ReadFormsWritten(mode, raw[i], Lookup(schema, "items").value);
    }
  }

  /** Without unions, coercion turns `raw` into `v` exactly when `v` meets the schema and `raw` is
      one of the ways of writing `v`. */
  lemma CoerceIff(mode: Mode, raw: Value, v: Value, schema: Value)
    requires UnionFree(schema)
    ensures Coerce(mode, raw, schema) == Some(v) <==> Conforms(mode, v, schema) && Writes(mode, raw, v, schema)
  {
    hide Coerce, Conforms, Writes, UnionFree;
    if Coerce(mode, raw, schema) == Some(v) {
      CoerceSound(mode, raw, schema);
      ReadFormsWritten(mode, raw, schema);
    }
    if Conforms(mode, v, schema) && Writes(mode, raw, v, schema) {
      WrittenFormsRead(mode, raw, v, schema);
    }
  }

  // ---- from the command line to typed arguments ----

  /** Arguments that meet an operation's schema, written in any mixture of forms and given on the
      command line as one assignment per leaf in any order, arrive at the operation as they are. */
  lemma ArgumentsArrive(mode: Mode, written: Value, arguments: Value, leaves: seq<(Arguments.Path, Value)>, schema: Value)
    requires UnionFree(schema) && Conforms(mode, arguments, schema)
    requires ArgumentRoundTrip.LeavesReadBack(mode.codec, leaves)
    requires Writes(mode, written, arguments, schema)
    requires written.Object? && ArgumentRoundTrip.Expressible(written) && ArgumentRoundTrip.Listing(written, leaves)
    ensures ArgumentRoundTrip.Writable(written, leaves)
    ensures var parsed := Arguments.Assign(mode.codec, map[], ArgumentRoundTrip.Texts(mode.codec, written, leaves));
            parsed.Ok? && Coerce(mode, Object(parsed.value), schema) == Some(arguments)
  {
    hide Coerce, Conforms, Writes;
    ArgumentRoundTrip.RebuildFromLeaves(mode.codec, written, leaves);
    WrittenFormsRead(mode, written, arguments, schema);
  }
}
