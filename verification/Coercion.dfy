/** Schema-driven coercion of argument values (src/arg_coercion.rs). */
module Coercion {
  import opened Wrappers
  import opened Json
  import Text

  // A schema is itself a JSON value; recursion follows the schema, since a string value may be parsed
  // into a tree of any size.

  /** The caller's two switches, and the text conversions of the JSON library. */
  datatype Mode = Mode(codec: Codec, strictUnknownFields: bool, enforceRequiredFields: bool)

  // ---- reading a schema ----

  function Lookup(schema: Value, name: string): Option<Value>
  {
    if schema.Object? && name in schema.fields then Some(schema.fields[name]) else None
  }

  function LookupArray(schema: Value, name: string): (r: Option<seq<Value>>)
    ensures r.Some? ==> forall i :: 0 <= i < |r.value| ==> r.value[i] < schema
  {
    var v := Lookup(schema, name);
    if v.Some? && v.value.Array? then Some(v.value.items) else None
  }

  /** The branches of `oneOf`, or else of `anyOf`. */
  function UnionBranches(schema: Value): (r: Option<seq<Value>>)
    ensures r.Some? ==> forall i :: 0 <= i < |r.value| ==> r.value[i] < schema
  {
    var oneOf := LookupArray(schema, "oneOf");
    if oneOf.Some? then oneOf else LookupArray(schema, "anyOf")
  }

  function Properties(schema: Value): (r: map<string, Value>)
    ensures forall k :: k in r ==> r[k] < schema
  {
    var v := Lookup(schema, "properties");
    if v.Some? && v.value.Object? then v.value.fields else map[]
  }

  function Required(schema: Value): seq<Value>
  {
    var v := LookupArray(schema, "required");
    if v.Some? then v.value else []
  }

  function SchemaType(schema: Value): Option<string>
  {
    var named := Lookup(schema, "type");
    if named.Some? && named.value.Str? then Some(named.value.text)
    else if Lookup(schema, "properties").Some? then Some("object")
    else if Lookup(schema, "items").Some? then Some("array")
    else None
  }

  datatype Kind = AnObject | AnArray | AnInteger | ANumber | ABoolean | ANull | AString | Anything

  function KindOf(schema: Value): Kind
  {
    var named := SchemaType(schema);
    if named == Some("object") then AnObject
    else if named == Some("array") then AnArray
    else if named == Some("integer") then AnInteger
    else if named == Some("number") then ANumber
    else if named == Some("boolean") then ABoolean
    else if named == Some("null") then ANull
    else if named == Some("string") then AString
    else Anything
  }

  // ---- scalars ----

  predicate IsWholeNumber(n: Number)
  {
    n.Int?
  }

  function CoerceInteger(value: Value): Option<Value>
  {
    match value
    case Num(n) => if IsWholeNumber(n) then Some(value) else None
    case Str(raw) => (var parsed := Text.ParseI64(raw);
                      if parsed.Some? then Some(Num(Int(parsed.value))) else None)
    case _ => None
  }

  function CoerceNumber(codec: Codec, value: Value): Option<Value>
  {
    match value
    case Num(_) => Some(value)
    case Str(raw) => (var parsed := codec.parseFloat(raw);
                      if parsed.Some? then Some(Num(Float(parsed.value))) else None)
    case _ => None
  }

  function BooleanText(raw: string): Option<bool>
  {
    if Text.EqIgnoreAsciiCase(raw, "true") then Some(true)
    else if Text.EqIgnoreAsciiCase(raw, "false") then Some(false)
    else None
  }

  function CoerceBoolean(value: Value): Option<Value>
  {
    match value
    case Bool(_) => Some(value)
    case Str(raw) => if BooleanText(raw).Some? then Some(Bool(BooleanText(raw).value)) else None
    case _ => None
  }

  function CoerceNull(value: Value): Option<Value>
  {
    match value
    case Null => Some(Null)
    case Str(raw) => if Text.EqIgnoreAsciiCase(raw, "null") then Some(Null) else None
    case _ => None
  }

  function CoerceString(codec: Codec, value: Value): Option<Value>
  {
    match value
    case Str(_) => Some(value)
    case Num(n) => Some(Str(codec.showNumber(n)))
    case Bool(b) => Some(Str(if b then "true" else "false"))
    case Null => Some(Str("null"))
    case _ => None
  }

  // ---- const and enum ----

  /** The text of an enum candidate's own kind that `raw` stands for. */
  function LiteralLike(codec: Codec, raw: string, sample: Value): Option<Value>
  {
    match sample
    case Str(_) => Some(Str(raw))
    case Bool(_) => CoerceBoolean(Str(raw))
    case Null => CoerceNull(Str(raw))
    case Num(n) => if IsWholeNumber(n) then CoerceInteger(Str(raw)) else CoerceNumber(codec, Str(raw))
    case _ => None
  }

  predicate InEnum(codec: Codec, value: Value, candidates: seq<Value>)
  {
    || value in candidates
    || (value.Str? && (exists i :: 0 <= i < |candidates| && LiteralLike(codec, value.text, candidates[i]) == Some(candidates[i])))
  }

  predicate ConstAndEnumHold(codec: Codec, value: Value, schema: Value)
  {
    && (Lookup(schema, "const").Some? ==> Lookup(schema, "const").value == value)
    && (LookupArray(schema, "enum").Some? ==> InEnum(codec, value, LookupArray(schema, "enum").value))
  }

  method ValidateConstAndEnum(codec: Codec, value: Value, schema: Value) returns (ok: bool)
    ensures ok == ConstAndEnumHold(codec, value, schema)
  {
    var constValue := Lookup(schema, "const");
    if constValue.Some? && value != constValue.value {
      return false;
    }
    var enumValues := LookupArray(schema, "enum");
    if enumValues.Some? {
      var candidates := enumValues.value;
      if value in candidates {
        return true;
      }
      if value.Str? {
        for i := 0 to |candidates|
          invariant forall j :: 0 <= j < i ==>
                      LiteralLike(codec, value.text, candidates[j]) != Some(candidates[j])
        {
          if LiteralLike(codec, value.text, candidates[i]) == Some(candidates[i]) {
            return true;
          }
        }
      }
      return false;
    }
    return true;
  }

  // ---- objects, arrays and unions ----

  /** The object or array a value stands for: itself, or what its text parses to. */
  function Opened(codec: Codec, value: Value): Option<Value>
  {
    match value
    case Object(_) => Some(value)
    case Array(_) => Some(value)
    case Str(raw) => codec.parse(raw)
    case _ => None
  }

  predicate HasRequired(mode: Mode, schema: Value, fields: map<string, Value>)
  {
    mode.enforceRequiredFields ==>
      forall i :: 0 <= i < |Required(schema)| && Required(schema)[i].Str? ==> Required(schema)[i].text in fields
  }

  function Coerce(mode: Mode, value: Value, schema: Value): Option<Value>
    decreases schema, 1
  {
    var branches := UnionBranches(schema);
    if branches.Some? then FirstMatch(mode, value, schema, branches.value)
    else
      var coerced := CoerceType(mode, value, schema);
      if coerced.Some? && ConstAndEnumHold(mode.codec, coerced.value, schema) then coerced else None
  }

  function CoerceType(mode: Mode, value: Value, schema: Value): Option<Value>
    decreases schema, 0
  {
    match KindOf(schema)
    case AnObject =>
      var inner := Opened(mode.codec, value);
      if inner.Some? && inner.value.Object? && HasRequired(mode, schema, inner.value.fields) then
        CoerceFields(mode, inner.value.fields, schema)
      else None
    case AnArray =>
      var inner := Opened(mode.codec, value);
      if inner.Some? && inner.value.Array? then CoerceItems(mode, inner.value.items, schema) else None
    case AnInteger => CoerceInteger(value)
    case ANumber => CoerceNumber(mode.codec, value)
    case ABoolean => CoerceBoolean(value)
    case ANull => CoerceNull(value)
    case AString => CoerceString(mode.codec, value)
    case Anything => Some(value)
  }

  /** The result of the first branch that accepts the value. */
  function FirstMatch(mode: Mode, value: Value, schema: Value, branches: seq<Value>): Option<Value>
    requires forall i :: 0 <= i < |branches| ==> branches[i] < schema
    decreases schema, 0, |branches|
  {
    if branches == [] then None
    else
      var first := Coerce(mode, value, branches[0]);
      if first.Some? then first else FirstMatch(mode, value, schema, branches[1..])
  }

  /** A field with a schema of its own is coerced; an unknown one is kept, or refused. */
  function CoerceField(mode: Mode, name: string, value: Value, schema: Value): Option<Value>
    decreases schema, 0, 0
  {
    var properties := Properties(schema);
    if name in properties then Coerce(mode, value, properties[name])
    else if mode.strictUnknownFields then None
    else Some(value)
  }

  function CoerceFields(mode: Mode, fields: map<string, Value>, schema: Value): (r: Option<Value>)
    ensures r.Some? ==> r.value.Object? && r.value.fields.Keys == fields.Keys
    ensures r.Some? ==> forall k :: k in fields ==> CoerceField(mode, k, fields[k], schema) == Some(r.value.fields[k])
    decreases schema, 0, 1
  {
    if forall k :: k in fields ==> CoerceField(mode, k, fields[k], schema).Some?
    then Some(Object(map k | k in fields :: CoerceField(mode, k, fields[k], schema).value))
    else None
  }

  function CoerceItem(mode: Mode, item: Value, schema: Value): Option<Value>
    decreases schema, 0, 0
  {
    var itemSchema := Lookup(schema, "items");
    if itemSchema.Some? then Coerce(mode, item, itemSchema.value) else Some(item)
  }

  function CoerceItems(mode: Mode, items: seq<Value>, schema: Value): (r: Option<Value>)
    ensures r.Some? ==> r.value.Array? && |r.value.items| == |items|
    ensures r.Some? ==> forall i :: 0 <= i < |items| ==> CoerceItem(mode, items[i], schema) == Some(r.value.items[i])
    decreases schema, 0, 1
  {
    if forall i :: 0 <= i < |items| ==> CoerceItem(mode, items[i], schema).Some?
    then Some(Array(seq(|items|, i requires 0 <= i < |items| => CoerceItem(mode, items[i], schema).value)))
    else None
  }

  // ---- the loops of the source ----

  method CoerceValue(mode: Mode, value: Value, schema: Value) returns (r: Option<Value>)
    ensures r == Coerce(mode, value, schema)
    decreases schema, 1
  {
    var oneOf := LookupArray(schema, "oneOf");
    if oneOf.Some? {
      r := CoerceUnion(mode, value, schema, oneOf.value);
      return;
    }
    var anyOf := LookupArray(schema, "anyOf");
    if anyOf.Some? {
      r := CoerceUnion(mode, value, schema, anyOf.value);
      return;
    }
    var coerced: Option<Value>;
    if KindOf(schema) == AnObject {
      coerced := CoerceObject(mode, value, schema);
    } else if KindOf(schema) == AnArray {
      coerced := CoerceArray(mode, value, schema);
    } else {
      coerced := CoerceType(mode, value, schema);
    }
    if coerced.None? {
      return None;
    }
    var ok := ValidateConstAndEnum(mode.codec, coerced.value, schema);
    return if ok then coerced else None;
  }

  method CoerceUnion(mode: Mode, value: Value, schema: Value, branches: seq<Value>) returns (r: Option<Value>)
    requires forall i :: 0 <= i < |branches| ==> branches[i] < schema
    ensures r == FirstMatch(mode, value, schema, branches)
    decreases schema, 0
  {
    for i := 0 to |branches|
      invariant FirstMatch(mode, value, schema, branches) == FirstMatch(mode, value, schema, branches[i..])
    {
      assert branches[i..][1..] == branches[i + 1..];
      r := CoerceValue(mode, value, branches[i]);
      if r.Some? {
        return;
      }
    }
    return None;
  }

  method CoerceObject(mode: Mode, value: Value, schema: Value) returns (r: Option<Value>)
    requires KindOf(schema) == AnObject
    ensures r == CoerceType(mode, value, schema)
    decreases schema, 0
  {
    var inner := Opened(mode.codec, value);
    if inner.None? || !inner.value.Object? {
      return None;
    }
    var obj := inner.value.fields;
    var hasAll := CheckRequired(mode, schema, obj);
    if !hasAll {
      return None;
    }
    r := CoerceEachField(mode, obj, schema);
  }

  /** The first loop of `coerce_object`: every required key is there. */
  method CheckRequired(mode: Mode, schema: Value, obj: map<string, Value>) returns (ok: bool)
    ensures ok == HasRequired(mode, schema, obj)
  {
    var required := Required(schema);
    if mode.enforceRequiredFields {
      for i := 0 to |required|
        invariant forall j :: 0 <= j < i && required[j].Str? ==> required[j].text in obj
      {
        if required[i].Str? && required[i].text !in obj {
          return false;
        }
      }
    }
    return true;
  }

  /** The second loop of `coerce_object`: the coerced fields, key by key. */
  method CoerceEachField(mode: Mode, obj: map<string, Value>, schema: Value) returns (r: Option<Value>)
    ensures r == CoerceFields(mode, obj, schema)
    decreases schema, 0, 0
  {
    var properties := Properties(schema);
    var output: map<string, Value> := map[];
    var remaining := obj.Keys;
    while remaining != {}
      invariant remaining <= obj.Keys && output.Keys == obj.Keys - remaining
      invariant forall k :: k in output ==> CoerceField(mode, k, obj[k], schema) == Some(output[k])
      decreases |remaining|
    {
      var key :| key in remaining;
      var coerced := Some(obj[key]);
      if key in properties {
        coerced := CoerceValue(mode, obj[key], properties[key]);
      } else if mode.strictUnknownFields {
        coerced := None;
      }
      FieldIs(mode, key, obj[key], schema);
      if coerced.None? {
        FieldsFail(mode, obj, schema, key);
        return None;
      }
      output := output[key := coerced.value];
      remaining := remaining - {key};
    }
    FieldsAre(mode, obj, schema, output);
    return Some(Object(output));
  }

  lemma FieldIs(mode: Mode, key: string, value: Value, schema: Value)
    ensures CoerceField(mode, key, value, schema) ==
            if key in Properties(schema) then Coerce(mode, value, Properties(schema)[key])
            else if mode.strictUnknownFields then None
            else Some(value)
  {
  }

  lemma FieldsAre(mode: Mode, obj: map<string, Value>, schema: Value, output: map<string, Value>)
    requires output.Keys == obj.Keys
    requires forall k :: k in output ==> CoerceField(mode, k, obj[k], schema) == Some(output[k])
    ensures CoerceFields(mode, obj, schema) == Some(Object(output))
  {
    var r := CoerceFields(mode, obj, schema);
    assert forall k :: k in obj ==> k in output;
    assert r.value.fields == output;
  }

  lemma FieldsFail(mode: Mode, obj: map<string, Value>, schema: Value, key: string)
    requires key in obj && CoerceField(mode, key, obj[key], schema).None?
    ensures CoerceFields(mode, obj, schema).None?
  {
  }

  method CoerceArray(mode: Mode, value: Value, schema: Value) returns (r: Option<Value>)
    requires KindOf(schema) == AnArray
    ensures r == CoerceType(mode, value, schema)
    decreases schema, 0
  {
    var inner := Opened(mode.codec, value);
    if inner.None? || !inner.value.Array? {
      return None;
    }
    var items := inner.value.items;
    var itemSchema := Lookup(schema, "items");
    var coercedItems: seq<Value> := [];
    for i := 0 to |items|
      invariant |coercedItems| == i
      invariant forall j :: 0 <= j < i ==> CoerceItem(mode, items[j], schema) == Some(coercedItems[j])
    {
      var coerced := Some(items[i]);
      if itemSchema.Some? {
        coerced := CoerceValue(mode, items[i], itemSchema.value);
      }
      if coerced.None? {
        return None;
      }
      coercedItems := coercedItems + [coerced.value];
    }
    assert coercedItems == CoerceItems(mode, items, schema).value.items;
    return Some(Array(coercedItems));
  }

  // ---- conformance: what a schema says about a value ----

  predicate HasType(value: Value, kind: Kind)
  {
    && (kind == AnObject ==> value.Object?)
    && (kind == AnArray ==> value.Array?)
    && (kind == AnInteger ==> value.Num? && IsWholeNumber(value.number))
    && (kind == ANumber ==> value.Num?)
    && (kind == ABoolean ==> value.Bool?)
    && (kind == ANull ==> value.Null?)
    && (kind == AString ==> value.Str?)
  }

  /** The value meets the schema at every level; a union asks for at least one branch. */
  predicate Conforms(mode: Mode, value: Value, schema: Value)
    decreases schema
  {
    var branches := UnionBranches(schema);
    if branches.Some? then
      exists i :: 0 <= i < |branches.value| && Conforms(mode, value, branches.value[i])
    else
      && HasType(value, KindOf(schema))
      && ConstAndEnumHold(mode.codec, value, schema)
      && (KindOf(schema) == AnObject ==>
            && HasRequired(mode, schema, value.fields)
            && (mode.strictUnknownFields ==> forall k :: k in value.fields ==> k in Properties(schema))
            && forall k :: k in value.fields && k in Properties(schema) ==>
                 Conforms(mode, value.fields[k], Properties(schema)[k]))
      && (KindOf(schema) == AnArray && Lookup(schema, "items").Some? ==>
            forall i :: 0 <= i < |value.items| ==> Conforms(mode, value.items[i], Lookup(schema, "items").value))
  }

  /** Coercion succeeds only with a value that meets the schema. */
  lemma {:induction false} CoerceSound(mode: Mode, value: Value, schema: Value)
    ensures var r := Coerce(mode, value, schema); r.Some? ==> Conforms(mode, r.value, schema)
    decreases schema, 1
  {
    hide CoerceType, ConstAndEnumHold, UnionBranches;
    var branches := UnionBranches(schema);
    if Coerce(mode, value, schema).Some? {
      if branches.Some? {
        var i := MatchingBranch(mode, value, schema, branches.value);
        CoerceSound(mode, value, branches.value[i]);
      } else {
        TypeSound(mode, value, schema);
      }
    }
  }

  lemma TypeSound(mode: Mode, value: Value, schema: Value)
    requires UnionBranches(schema).None?
    ensures var r := CoerceType(mode, value, schema);
            r.Some? && ConstAndEnumHold(mode.codec, r.value, schema) ==> Conforms(mode, r.value, schema)
    decreases schema, 0, 1
  {
    hide ConstAndEnumHold, UnionBranches, KindOf, Conforms, CoerceType, HasType;
    if KindOf(schema) == AnObject {
      ObjectSound(mode, value, schema);
    } else if KindOf(schema) == AnArray {
      ArraySound(mode, value, schema);
    } else {
      ScalarSound(mode, value, schema);
    }
  }

  lemma ObjectSound(mode: Mode, value: Value, schema: Value)
    requires UnionBranches(schema).None? && KindOf(schema) == AnObject
    ensures var r := CoerceType(mode, value, schema);
            r.Some? && ConstAndEnumHold(mode.codec, r.value, schema) ==> Conforms(mode, r.value, schema)
    decreases schema, 0, 0, 1
  {
    hide ConstAndEnumHold, UnionBranches, Properties, KindOf, HasRequired;
    var inner := Opened(mode.codec, value);
    if inner.Some? && inner.value.Object? {
      var r := CoerceFields(mode, inner.value.fields, schema);
      FieldsSound(mode, inner.value.fields, schema);
      if r.Some? {
        RequiredByKeys(mode, schema, inner.value.fields, r.value.fields);
      }
    }
  }

  lemma ArraySound(mode: Mode, value: Value, schema: Value)
    requires UnionBranches(schema).None? && KindOf(schema) == AnArray
    ensures var r := CoerceType(mode, value, schema);
            r.Some? && ConstAndEnumHold(mode.codec, r.value, schema) ==> Conforms(mode, r.value, schema)
    decreases schema, 0, 0, 1
  {
    hide ConstAndEnumHold, UnionBranches, Properties, KindOf, HasRequired;
    var inner := Opened(mode.codec, value);
    if inner.Some? && inner.value.Array? {
      ItemsSound(mode, inner.value.items, schema);
      assert CoerceType(mode, value, schema) == CoerceItems(mode, inner.value.items, schema);
    }
  }

  lemma ScalarSound(mode: Mode, value: Value, schema: Value)
    requires UnionBranches(schema).None? && KindOf(schema) != AnObject && KindOf(schema) != AnArray
    ensures var r := CoerceType(mode, value, schema);
            r.Some? && ConstAndEnumHold(mode.codec, r.value, schema) ==> Conforms(mode, r.value, schema)
  {
    hide ConstAndEnumHold, UnionBranches, Properties, KindOf;
  }

  lemma RequiredByKeys(mode: Mode, schema: Value, a: map<string, Value>, b: map<string, Value>)
    requires a.Keys == b.Keys
    ensures HasRequired(mode, schema, a) == HasRequired(mode, schema, b)
  {
    assert forall k :: k in a <==> k in b;
  }

  lemma FieldsSound(mode: Mode, fields: map<string, Value>, schema: Value)
    ensures var r := CoerceFields(mode, fields, schema);
            r.Some? ==>
              && (mode.strictUnknownFields ==> forall k :: k in fields ==> k in Properties(schema))
              && forall k :: k in fields && k in Properties(schema) ==>
                   Conforms(mode, r.value.fields[k], Properties(schema)[k])
    decreases schema, 0, 0, 0
  {
    hide Conforms, Properties;
    var r := CoerceFields(mode, fields, schema);
    if r.Some? {
      forall k | k in fields
        ensures if k in Properties(schema) then Conforms(mode, r.value.fields[k], Properties(schema)[k])
                else !mode.strictUnknownFields
      {
        FieldIs(mode, k, fields[k], schema);
        if k in Properties(schema) {
          CoerceSound(mode, fields[k], Properties(schema)[k]);
        }
      }
    }
  }

  lemma ItemsSound(mode: Mode, items: seq<Value>, schema: Value)
    ensures var r := CoerceItems(mode, items, schema);
            r.Some? && Lookup(schema, "items").Some? ==>
              forall i :: 0 <= i < |r.value.items| ==> Conforms(mode, r.value.items[i], Lookup(schema, "items").value)
    decreases schema, 0, 0, 0
  {
    hide Conforms;
    var r := CoerceItems(mode, items, schema);
    if r.Some? && Lookup(schema, "items").Some? {
      forall i | 0 <= i < |items| ensures Conforms(mode, r.value.items[i], Lookup(schema, "items").value) {
        assert CoerceItem(mode, items[i], schema) == Coerce(mode, items[i], Lookup(schema, "items").value);
        CoerceSound(mode, items[i], Lookup(schema, "items").value);
      }
    }
  }

  /** The branch whose result a union takes: it accepts the value and no earlier one does. */
  lemma {:induction false} MatchingBranch(mode: Mode, value: Value, schema: Value, branches: seq<Value>)
    returns (i: nat)
    requires forall j :: 0 <= j < |branches| ==> branches[j] < schema
    requires FirstMatch(mode, value, schema, branches).Some?
    ensures i < |branches| && FirstMatch(mode, value, schema, branches) == Coerce(mode, value, branches[i])
    ensures forall j :: 0 <= j < i ==> Coerce(mode, value, branches[j]).None?
    decreases |branches|
  {
    i := 0;
    if Coerce(mode, value, branches[0]).None? {
      i := MatchingBranch(mode, value, schema, branches[1..]);
      i := i + 1;
      assert forall j :: 0 < j < i ==> branches[j] == branches[1..][j - 1];
    }
  }

  /** No `oneOf` or `anyOf` at any level the coercion reaches. */
  predicate UnionFree(schema: Value)
    decreases schema
  {
    && UnionBranches(schema).None?
    && (forall k :: k in Properties(schema) ==> UnionFree(Properties(schema)[k]))
    && (Lookup(schema, "items").Some? ==> UnionFree(Lookup(schema, "items").value))
  }

  /** Without unions, a value that already meets the schema is returned as it is. */
  lemma {:induction false} CoerceIdentity(mode: Mode, value: Value, schema: Value)
    requires UnionFree(schema) && Conforms(mode, value, schema)
    ensures Coerce(mode, value, schema) == Some(value)
    decreases schema
  {
    if KindOf(schema) == AnObject {
      forall k | k in value.fields ensures CoerceField(mode, k, value.fields[k], schema) == Some(value.fields[k]) {
        if k in Properties(schema) {
          CoerceIdentity(mode, value.fields[k], Properties(schema)[k]);
        }
      }
      assert CoerceFields(mode, value.fields, schema).value.fields == value.fields;
    } else if KindOf(schema) == AnArray {
      forall i | 0 <= i < |value.items| ensures CoerceItem(mode, value.items[i], schema) == Some(value.items[i]) {
        if Lookup(schema, "items").Some? {
          CoerceIdentity(mode, value.items[i], Lookup(schema, "items").value);
        }
      }
      assert CoerceItems(mode, value.items, schema).value.items == value.items;
    }
  }

  /** Without unions, the values that coercion leaves alone are those that meet the schema,
      and a second coercion changes nothing. */
  lemma CoerceFixedPoints(mode: Mode, value: Value, schema: Value)
    requires UnionFree(schema)
    ensures Coerce(mode, value, schema) == Some(value) <==> Conforms(mode, value, schema)
    ensures var r := Coerce(mode, value, schema); r.Some? ==> Coerce(mode, r.value, schema) == r
  {
    CoerceSound(mode, value, schema);
    var r := Coerce(mode, value, schema);
    if r.Some? {
      CoerceIdentity(mode, r.value, schema);
    }
    if Conforms(mode, value, schema) {
      CoerceIdentity(mode, value, schema);
    }
  }

  /** An object that comes out has the keys of the object that went in, natively or as text, and an
      array has the length of the array that went in. */
  predicate KeepsShape(mode: Mode, value: Value, r: Value)
  {
    var inner := Opened(mode.codec, value);
    && (r.Object? ==> inner.Some? && inner.value.Object? && r.fields.Keys == inner.value.fields.Keys)
    && (r.Array? ==> inner.Some? && inner.value.Array? && |r.items| == |inner.value.items|)
  }

  /** So it is, whatever the schema, unions included. */
  lemma {:induction false} CoerceKeepsShape(mode: Mode, value: Value, schema: Value)
    requires Coerce(mode, value, schema).Some?
    ensures KeepsShape(mode, value, Coerce(mode, value, schema).value)
    decreases schema
  {
    hide CoerceType, ConstAndEnumHold;
    var branches := UnionBranches(schema);
    if branches.Some? {
      var i := MatchingBranch(mode, value, schema, branches.value);
      CoerceKeepsShape(mode, value, branches.value[i]);
    } else {
      TypeKeepsShape(mode, value, schema);
    }
  }

  lemma TypeKeepsShape(mode: Mode, value: Value, schema: Value)
    requires CoerceType(mode, value, schema).Some?
    ensures KeepsShape(mode, value, CoerceType(mode, value, schema).value)
  {
  }

  // ---- unions: where idempotence stops ----

  /** A union over union-free branches leaves its result alone on a second coercion exactly
      when the first branch that accepts the result is one whose schema the result meets. */
  lemma UnionIdempotentIff(mode: Mode, value: Value, schema: Value)
    requires UnionBranches(schema).Some?
    requires forall i :: 0 <= i < |UnionBranches(schema).value| ==> UnionFree(UnionBranches(schema).value[i])
    requires Coerce(mode, value, schema).Some?
    ensures var r := Coerce(mode, value, schema).value;
            var branches := UnionBranches(schema).value;
            Coerce(mode, r, schema) == Some(r) <==>
            exists i :: 0 <= i < |branches| && Conforms(mode, r, branches[i])
                        && forall j :: 0 <= j < i ==> Coerce(mode, r, branches[j]).None?
  {
    hide Coerce, CoerceType, Conforms, UnionFree;
    var r := Coerce(mode, value, schema).value;
    var branches := UnionBranches(schema).value;
    UnionIs(mode, value, schema);
    UnionIs(mode, r, schema);
    var k := MatchingBranch(mode, value, schema, branches);
    CoerceFixedPoints(mode, value, branches[k]);
    FirstMatchAccepts(mode, r, schema, branches, k);
    var m := MatchingBranch(mode, r, schema, branches);
    CoerceFixedPoints(mode, r, branches[m]);
    forall i | 0 <= i < |branches| && Conforms(mode, r, branches[i]) ensures Coerce(mode, r, branches[i]).Some? {
      CoerceFixedPoints(mode, r, branches[i]);
    }
  }

  lemma UnionIs(mode: Mode, value: Value, schema: Value)
    requires UnionBranches(schema).Some?
    ensures Coerce(mode, value, schema) == FirstMatch(mode, value, schema, UnionBranches(schema).value)
  {
    hide CoerceType;
  }

  lemma {:induction false} FirstMatchAccepts(mode: Mode, value: Value, schema: Value, branches: seq<Value>, k: nat)
    requires forall j :: 0 <= j < |branches| ==> branches[j] < schema
    requires k < |branches| && Coerce(mode, value, branches[k]).Some?
    ensures FirstMatch(mode, value, schema, branches).Some?
    decreases |branches|
  {
    if Coerce(mode, value, branches[0]).None? {
      FirstMatchAccepts(mode, value, schema, branches[1..], k - 1);
    }
  }

  /** `oneOf [{type: string, const: "5"}, {type: integer}]` */
  function FiveOrInteger(): Value
  {
    Object(map["oneOf" := Array([
      Object(map["type" := Str("string"), "const" := Str("5")]),
      Object(map["type" := Str("integer")])])])
  }

  /** It turns "05" into 5 and then 5 into "5", when 5 is shown as "5". */
  lemma UnionNotIdempotent(mode: Mode)
    requires mode.codec.showNumber(Int(5)) == "5"
    ensures Coerce(mode, Str("05"), FiveOrInteger()) == Some(Num(Int(5)))
    ensures Coerce(mode, Num(Int(5)), FiveOrInteger()) == Some(Str("5"))
  {
    hide FiveOrInteger, CoerceType, FirstMatch, Coerce;
    var branches := FiveOrIntegerBranches();
    FiveText(mode, branches[0]);
    AnyInteger(mode, branches[1]);
    FirstOfTwo(mode, Str("05"), FiveOrInteger(), branches);
    FirstOfTwo(mode, Num(Int(5)), FiveOrInteger(), branches);
  }

  lemma FiveOrIntegerBranches() returns (branches: seq<Value>)
    ensures UnionBranches(FiveOrInteger()) == Some(branches) && |branches| == 2
    ensures branches[0] == Object(map["type" := Str("string"), "const" := Str("5")])
    ensures branches[1] == Object(map["type" := Str("integer")])
    ensures branches[0] < FiveOrInteger() && branches[1] < FiveOrInteger()
  {
    branches := UnionBranches(FiveOrInteger()).value;
  }

  lemma FirstOfTwo(mode: Mode, value: Value, schema: Value, branches: seq<Value>)
    requires UnionBranches(schema) == Some(branches) && |branches| == 2
    ensures Coerce(mode, value, schema) ==
            if Coerce(mode, value, branches[0]).Some? then Coerce(mode, value, branches[0])
            else Coerce(mode, value, branches[1])
  {
    hide UnionBranches, CoerceType;
    assert Coerce(mode, value, schema) == FirstMatch(mode, value, schema, branches);
    assert branches[1..] == [branches[1]];
    assert FirstMatch(mode, value, schema, [branches[1]]) == Coerce(mode, value, branches[1]);
  }

  lemma FiveText(mode: Mode, schema: Value)
    requires mode.codec.showNumber(Int(5)) == "5"
    requires schema == Object(map["type" := Str("string"), "const" := Str("5")])
    ensures Coerce(mode, Str("05"), schema).None? && Coerce(mode, Num(Int(5)), schema) == Some(Str("5"))
  {
    assert UnionBranches(schema).None? && KindOf(schema) == AString;
    assert Coerce(mode, Str("05"), schema).None?;
  }

  lemma AnyInteger(mode: Mode, schema: Value)
    requires schema == Object(map["type" := Str("integer")])
    ensures Coerce(mode, Str("05"), schema) == Some(Num(Int(5)))
  {
    assert UnionBranches(schema).None? && KindOf(schema) == AnInteger;
    assert "05"[..1] == "0" && "0"[..0] == "";
    assert Text.DigitsValue("0") == 0 && Text.DigitsValue("05") == 5;
  }
}
