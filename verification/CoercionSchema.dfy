/** What coercion does, by the schema's own text (src/arg_coercion.rs). */
module CoercionSchema {
  import opened Wrappers
  import opened Json
  import opened Coercion
  import Text

  // The keys of a schema and the names of types are read here as they stand in the schema. For each
  // kind of schema there is one law that says which result, if any, each value has; together they
  // leave nothing about the result open.

  predicate Says(schema: Value, name: string, v: Value)
  {
    schema.Object? && name in schema.fields && schema.fields[name] == v
  }

  predicate SaysArray(schema: Value, name: string)
  {
    schema.Object? && name in schema.fields && schema.fields[name].Array?
  }

  predicate NoUnion(schema: Value)
  {
    !SaysArray(schema, "oneOf") && !SaysArray(schema, "anyOf")
  }

  predicate NoTypeName(schema: Value)
  {
    !(schema.Object? && "type" in schema.fields && schema.fields["type"].Str?)
  }

  predicate Mentions(schema: Value, name: string)
  {
    schema.Object? && name in schema.fields
  }

  // ---- const and enum ----

  /** A text stands for a literal of an enum. */
  predicate StandsFor(mode: Mode, raw: string, literal: Value)
  {
    match literal
    case Str(text) => raw == text
    case Bool(truth) => Text.EqIgnoreAsciiCase(raw, if truth then "true" else "false")
    case Null => Text.EqIgnoreAsciiCase(raw, "null")
    case Num(Int(whole)) => Text.ParseI64(raw) == Some(whole)
    case Num(Float(value)) => mode.codec.parseFloat(raw) == Some(value)
    case _ => false
  }

  predicate Passes(mode: Mode, schema: Value, r: Value)
  {
    && (Mentions(schema, "const") ==> schema.fields["const"] == r)
    && (SaysArray(schema, "enum") ==>
          r in schema.fields["enum"].items
          || (r.Str? && exists i :: 0 <= i < |schema.fields["enum"].items| && StandsFor(mode, r.text, schema.fields["enum"].items[i])))
  }

  lemma LiteralStands(mode: Mode, raw: string, literal: Value)
    ensures LiteralLike(mode.codec, raw, literal) == Some(literal) <==> StandsFor(mode, raw, literal)
  {
    assert |"true"| != |"false"|;
  }

  lemma PassesIs(mode: Mode, schema: Value, r: Value)
    ensures ConstAndEnumHold(mode.codec, r, schema) <==> Passes(mode, schema, r)
  {
    hide LiteralLike, StandsFor;
    if SaysArray(schema, "enum") && r.Str? {
      var candidates := schema.fields["enum"].items;
      forall i | 0 <= i < |candidates|
        ensures LiteralLike(mode.codec, r.text, candidates[i]) == Some(candidates[i]) <==> StandsFor(mode, r.text, candidates[i])
      {
        LiteralStands(mode, r.text, candidates[i]);
      }
    }
  }

  /** A result counts only if const and enum let it through. */
  function Passed(mode: Mode, schema: Value, r: Option<Value>): Option<Value>
  {
    if r.Some? && Passes(mode, schema, r.value) then r else None
  }

  lemma NoUnionCoerce(mode: Mode, value: Value, schema: Value)
    requires NoUnion(schema)
    ensures Coerce(mode, value, schema) == Passed(mode, schema, CoerceType(mode, value, schema))
  {
    hide CoerceType, ConstAndEnumHold, Passes;
    var r := CoerceType(mode, value, schema);
    if r.Some? {
      PassesIs(mode, schema, r.value);
    }
  }

  // ---- the five scalar types, and no type ----

  lemma BooleanSchema(mode: Mode, value: Value, schema: Value)
    requires NoUnion(schema) && Says(schema, "type", Str("boolean"))
    ensures Coerce(mode, value, schema) == Passed(mode, schema,
              if value.Bool? then Some(value)
              else if value.Str? && Text.EqIgnoreAsciiCase(value.text, "true") then Some(Bool(true))
              else if value.Str? && Text.EqIgnoreAsciiCase(value.text, "false") then Some(Bool(false))
              else None)
  {
    hide Coerce, Passes;
    NoUnionCoerce(mode, value, schema);
  }

  lemma NullSchema(mode: Mode, value: Value, schema: Value)
    requires NoUnion(schema) && Says(schema, "type", Str("null"))
    ensures Coerce(mode, value, schema) == Passed(mode, schema,
              if value.Null? || (value.Str? && Text.EqIgnoreAsciiCase(value.text, "null")) then Some(Null) else None)
  {
    hide Coerce, Passes;
    NoUnionCoerce(mode, value, schema);
  }

  lemma IntegerSchema(mode: Mode, value: Value, schema: Value)
    requires NoUnion(schema) && Says(schema, "type", Str("integer"))
    ensures Coerce(mode, value, schema) == Passed(mode, schema,
              if value.Num? && value.number.Int? then Some(value)
              else if value.Str? && Text.ParseI64(value.text).Some? then Some(Num(Int(Text.ParseI64(value.text).value)))
              else None)
  {
    hide Coerce, Passes, Text.ParseI64;
    NoUnionCoerce(mode, value, schema);
  }

  lemma NumberSchema(mode: Mode, value: Value, schema: Value)
    requires NoUnion(schema) && Says(schema, "type", Str("number"))
    ensures Coerce(mode, value, schema) == Passed(mode, schema,
              if value.Num? then Some(value)
              else if value.Str? && mode.codec.parseFloat(value.text).Some?
              then Some(Num(Float(mode.codec.parseFloat(value.text).value)))
              else None)
  {
    hide Coerce, Passes;
    NoUnionCoerce(mode, value, schema);
  }

  lemma StringSchema(mode: Mode, value: Value, schema: Value)
    requires NoUnion(schema) && Says(schema, "type", Str("string"))
    ensures Coerce(mode, value, schema) == Passed(mode, schema,
              if value.Str? then Some(value)
              else if value.Num? then Some(Str(mode.codec.showNumber(value.number)))
              else if value.Bool? then Some(Str(if value.truth then "true" else "false"))
              else if value.Null? then Some(Str("null"))
              else None)
  {
    hide Coerce, Passes;
    NoUnionCoerce(mode, value, schema);
  }

  /** A type of another name, or none at all, asks for nothing. */
  lemma AnySchema(mode: Mode, value: Value, schema: Value)
    requires NoUnion(schema)
    requires if NoTypeName(schema) then !Mentions(schema, "properties") && !Mentions(schema, "items")
             else schema.fields["type"].text !in {"object", "array", "integer", "number", "boolean", "null", "string"}
    ensures Coerce(mode, value, schema) == Passed(mode, schema, Some(value))
  {
    hide Coerce, Passes;
    NoUnionCoerce(mode, value, schema);
  }

  // ---- objects ----

  /** The type is named, or it is taken from the mention of properties. */
  predicate ForObjects(schema: Value)
  {
    NoUnion(schema) && if NoTypeName(schema) then Mentions(schema, "properties") else schema.fields["type"].text == "object"
  }

  predicate Stands(mode: Mode, value: Value, tree: Value)
  {
    value == tree || (value.Str? && mode.codec.parse(value.text) == Some(tree))
  }

  ghost predicate RequiredThere(mode: Mode, schema: Value, fields: map<string, Value>)
  {
    mode.enforceRequiredFields && SaysArray(schema, "required") ==>
      forall name :: Str(name) in schema.fields["required"].items ==> name in fields
  }

  /** A declared field is coerced by its own schema, any other kept, or refused when strict. */
  predicate FieldBecomes(mode: Mode, schema: Value, name: string, value: Value, r: Value)
  {
    if Mentions(schema, "properties") && schema.fields["properties"].Object? && name in schema.fields["properties"].fields
    then Coerce(mode, value, schema.fields["properties"].fields[name]) == Some(r)
    else !mode.strictUnknownFields && r == value
  }

  ghost predicate ObjectBecomes(mode: Mode, schema: Value, fields: map<string, Value>, r: Value)
  {
    && r.Object? && r.fields.Keys == fields.Keys
    && RequiredThere(mode, schema, fields)
    && (forall k :: k in fields ==> FieldBecomes(mode, schema, k, fields[k], r.fields[k]))
    && Passes(mode, schema, r)
  }

  lemma FieldIsCoerced(mode: Mode, schema: Value, name: string, value: Value, r: Value)
    ensures CoerceField(mode, name, value, schema) == Some(r) <==> FieldBecomes(mode, schema, name, value, r)
  {
    hide Coerce;
    FieldIs(mode, name, value, schema);
  }

  lemma RequiredIs(mode: Mode, schema: Value, fields: map<string, Value>)
    ensures HasRequired(mode, schema, fields) <==> RequiredThere(mode, schema, fields)
  {
    if mode.enforceRequiredFields && SaysArray(schema, "required") {
      var names := schema.fields["required"].items;
      assert Required(schema) == names;
      assert forall i :: 0 <= i < |names| && names[i].Str? ==> Str(names[i].text) == names[i];
    }
  }

  lemma FieldsBecome(mode: Mode, schema: Value, fields: map<string, Value>, r: Value)
    ensures CoerceFields(mode, fields, schema) == Some(r) <==>
            r.Object? && r.fields.Keys == fields.Keys
            && forall k :: k in fields ==> FieldBecomes(mode, schema, k, fields[k], r.fields[k])
  {
    hide CoerceField, FieldBecomes;
    if r.Object? && r.fields.Keys == fields.Keys {
      forall k | k in fields
        ensures CoerceField(mode, k, fields[k], schema) == Some(r.fields[k]) <==> FieldBecomes(mode, schema, k, fields[k], r.fields[k])
      {
        FieldIsCoerced(mode, schema, k, fields[k], r.fields[k]);
      }
      if forall k :: k in fields ==> CoerceField(mode, k, fields[k], schema) == Some(r.fields[k]) {
        FieldsAre(mode, fields, schema, r.fields);
      }
    }
  }

  /** Which objects come out of an object, given natively or as text. */
  lemma ObjectSchema(mode: Mode, value: Value, schema: Value, fields: map<string, Value>, r: Value)
    requires ForObjects(schema) && Stands(mode, value, Object(fields))
    ensures Coerce(mode, value, schema) == Some(r) <==> ObjectBecomes(mode, schema, fields, r)
  {
    hide Coerce, CoerceFields, Passes, FieldBecomes, HasRequired, RequiredThere;
    NoUnionCoerce(mode, value, schema);
    RequiredIs(mode, schema, fields);
    FieldsBecome(mode, schema, fields, r);
  }

  /** Nothing but an object is taken for one. */
  lemma ObjectSchemaRefuses(mode: Mode, value: Value, schema: Value)
    requires ForObjects(schema) && forall fields :: !Stands(mode, value, Object(fields))
    ensures Coerce(mode, value, schema).None?
  {
    hide Coerce, CoerceFields, Passes, HasRequired, Stands;
    NoUnionCoerce(mode, value, schema);
    var inner := Opened(mode.codec, value);
    if inner.Some? && inner.value.Object? {
      OpenedStands(mode, value);
    }
  }

  lemma OpenedStands(mode: Mode, value: Value)
    requires Opened(mode.codec, value).Some? && (value.Array? ==> Opened(mode.codec, value).value.Array?)
    ensures Stands(mode, value, Opened(mode.codec, value).value)
    ensures Opened(mode.codec, value).value.Object? ==>
              Stands(mode, value, Object(Opened(mode.codec, value).value.fields))
    ensures Opened(mode.codec, value).value.Array? ==>
              Stands(mode, value, Array(Opened(mode.codec, value).value.items))
  {
  }

  // ---- arrays ----

  predicate ForArrays(schema: Value)
  {
    NoUnion(schema) && if NoTypeName(schema) then !Mentions(schema, "properties") && Mentions(schema, "items")
                       else schema.fields["type"].text == "array"
  }

  predicate ArrayBecomes(mode: Mode, schema: Value, items: seq<Value>, r: Value)
  {
    && r.Array? && |r.items| == |items|
    && (forall i :: 0 <= i < |items| ==>
          if Mentions(schema, "items") then Coerce(mode, items[i], schema.fields["items"]) == Some(r.items[i]) else r.items[i] == items[i])
    && Passes(mode, schema, r)
  }

  lemma ArraySchema(mode: Mode, value: Value, schema: Value, items: seq<Value>, r: Value)
    requires ForArrays(schema) && Stands(mode, value, Array(items))
    ensures Coerce(mode, value, schema) == Some(r) <==> ArrayBecomes(mode, schema, items, r)
  {
    hide Coerce, Passes;
    NoUnionCoerce(mode, value, schema);
    ItemsBecome(mode, schema, items, r);
  }

  lemma ItemsBecome(mode: Mode, schema: Value, items: seq<Value>, r: Value)
    ensures CoerceItems(mode, items, schema) == Some(r) <==>
            r.Array? && |r.items| == |items|
            && forall i :: 0 <= i < |items| ==>
                 if Mentions(schema, "items") then Coerce(mode, items[i], schema.fields["items"]) == Some(r.items[i]) else r.items[i] == items[i]
  {
    hide Coerce;
    if r.Array? && |r.items| == |items| {
      forall i | 0 <= i < |items|
        ensures CoerceItem(mode, items[i], schema) == Some(r.items[i]) <==>
                if Mentions(schema, "items") then Coerce(mode, items[i], schema.fields["items"]) == Some(r.items[i]) else r.items[i] == items[i]
      {
      }
      if forall i :: 0 <= i < |items| ==> CoerceItem(mode, items[i], schema) == Some(r.items[i]) {
        assert CoerceItems(mode, items, schema).value.items == r.items;
      }
    }
  }

  lemma ArraySchemaRefuses(mode: Mode, value: Value, schema: Value)
    requires ForArrays(schema) && forall items :: !Stands(mode, value, Array(items))
    ensures Coerce(mode, value, schema).None?
  {
    hide Coerce, CoerceItems, Passes, Stands;
    NoUnionCoerce(mode, value, schema);
    var inner := Opened(mode.codec, value);
    if inner.Some? && inner.value.Array? {
      OpenedStands(mode, value);
    }
  }

  // ---- unions ----

  /** The first branch that accepts the value gives the result; `oneOf` goes before `anyOf`. */
  lemma UnionSchema(mode: Mode, value: Value, schema: Value, branches: seq<Value>, r: Value)
    requires Says(schema, "oneOf", Array(branches)) || (!SaysArray(schema, "oneOf") && Says(schema, "anyOf", Array(branches)))
    ensures Coerce(mode, value, schema) == Some(r) <==>
            exists i :: 0 <= i < |branches| && Coerce(mode, value, branches[i]) == Some(r)
                        && forall j :: 0 <= j < i ==> Coerce(mode, value, branches[j]).None?
  {
    hide Coerce, CoerceType;
    assert UnionBranches(schema) == Some(branches);
    UnionIs(mode, value, schema);
    if Coerce(mode, value, schema).Some? {
      var k := MatchingBranch(mode, value, schema, branches);
    }
    forall i | 0 <= i < |branches| && Coerce(mode, value, branches[i]) == Some(r)
               && forall j :: 0 <= j < i ==> Coerce(mode, value, branches[j]).None?
      ensures Coerce(mode, value, schema) == Some(r)
    {
      FirstMatchAccepts(mode, value, schema, branches, i);
      var k := MatchingBranch(mode, value, schema, branches);
      assert k == i;
    }
  }
}
