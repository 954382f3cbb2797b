/**
 * The part of JSON Schema that `TRANSACTION_SCHEMA` uses: the `type`
 * keyword (JSON Schema Validation 2020-12, section 6.1.1), `required`
 * (section 6.5.3) and `properties` (JSON Schema Core 2020-12, section
 * 10.3.2.1). `format` is kept in the schema but, as with a validator that
 * has no format checker, it is an annotation only and never fails.
 */
module JsonSchema {
  import opened Json

  datatype JsonType = NullType | BooleanType | NumberType | StringType | ArrayType | ObjectType

  /** The `type` keyword's test. A boolean is not a number. */
  predicate HasType(v: JsonValue, t: JsonType)
  {
    match t
    case NullType => v.JNull?
    case BooleanType => v.JBool?
    case NumberType => v.JNumber?
    case StringType => v.JString?
    case ArrayType => v.JArray?
    case ObjectType => v.JObject?
  }

  datatype Schema = Schema(
    typ: Option<JsonType>,
    format: Option<string>,
    properties: seq<Property>,
    required: seq<string>)

  datatype Property = Property(name: string, schema: Schema)

  /** A schema that only constrains the type. */
  function OfType(t: JsonType): Schema
  {
    Schema(Some(t), None, [], [])
  }

  /** `TRANSACTION_SCHEMA`. */
  const TransactionSchema: Schema := Schema(
    Some(ObjectType),
    None,
    [ Property("transaction_id", OfType(StringType)),
      Property("created_at", Schema(Some(StringType), Some("date-time"), [], [])),
      Property("amount", OfType(NumberType)),
      Property("customer_id", OfType(StringType)) ],
    ["transaction_id", "created_at", "amount"])

  datatype Failure = WrongType(expected: JsonType) | MissingRequired(name: string)

  /** A failed keyword, located by the chain of object keys leading to the instance that fails it. */
  datatype Violation = Violation(path: seq<string>, failure: Failure)

  /**
   * Every violation of `s` by `v`, keyword by keyword in the schema's order
   * (`type`, `properties`, `required`). `properties` and `required` only
   * apply to objects. The instance is valid when the list is empty.
   */
  function Errors(s: Schema, v: JsonValue): (r: seq<Violation>)
    ensures s.typ.Some? && !HasType(v, s.typ.value) ==> |r| >= 1 && r[0] == Violation([], WrongType(s.typ.value))
    ensures !v.JObject? ==> (r == [] <==> s.typ.None? || HasType(v, s.typ.value))
    decreases s, |s.properties| + 1
  {
    (if s.typ.Some? && !HasType(v, s.typ.value) then [Violation([], WrongType(s.typ.value))] else [])
    + (match v
       case JObject(ms) => PropertyErrors(s, 0, ms) + RequiredErrors(s.required, ms)
       case _ => [])
  }

  /** `properties`, from the `i`-th listed property on: each member present is checked against its sub-schema. */
  function PropertyErrors(s: Schema, i: nat, ms: seq<Member>): seq<Violation>
    requires i <= |s.properties|
    decreases s, |s.properties| - i
  {
    if i == |s.properties| then []
    else
      var p := s.properties[i];
      assert p in s.properties;
      (match Lookup(ms, p.name)
       case None => []
       case Some(x) => Under(p.name, Errors(p.schema, x)))
      + PropertyErrors(s, i + 1, ms)
  }

  /** `required`: one violation per listed key the object lacks. */
  function RequiredErrors(required: seq<string>, ms: seq<Member>): seq<Violation>
  {
    if required == [] then []
    else
      (if Lookup(ms, required[0]).None? then [Violation([], MissingRequired(required[0]))] else [])
      + RequiredErrors(required[1..], ms)
  }

  /** Violations found inside the member `name`, relocated to the enclosing object. */
  function Under(name: string, errs: seq<Violation>): (r: seq<Violation>)
    ensures |r| == |errs|
    ensures forall k :: 0 <= k < |r| ==> r[k] == Violation([name] + errs[k].path, errs[k].failure)
  {
    seq(|errs|, k requires 0 <= k < |errs| => Violation([name] + errs[k].path, errs[k].failure))
  }

  function Valid(s: Schema, v: JsonValue): bool
  {
    Errors(s, v) == []
  }

  // ---------------------------------------------------------------------
  // An independent statement of what TRANSACTION_SCHEMA accepts

  predicate HasField(ms: seq<Member>, key: string, t: JsonType)
  {
    Lookup(ms, key).Some? && HasType(Lookup(ms, key).value, t)
  }

  predicate OptionalField(ms: seq<Member>, key: string, t: JsonType)
  {
    Lookup(ms, key).Some? ==> HasType(Lookup(ms, key).value, t)
  }

  /**
   * A transaction: an object with string `transaction_id`, string
   * `created_at` and numeric `amount`, whose `customer_id`, if any, is a
   * string. Any other member is allowed, with any value.
   */
  predicate IsTransaction(v: JsonValue)
  {
    && v.JObject?
    && HasField(v.members, "transaction_id", StringType)
    && HasField(v.members, "created_at", StringType)
    && HasField(v.members, "amount", NumberType)
    && OptionalField(v.members, "customer_id", StringType)
  }

  // ---------------------------------------------------------------------
  // Properties of the validator

  /** The instance reached by following `path` through object members. */
  function At(v: JsonValue, path: seq<string>): Option<JsonValue>
    decreases |path|
  {
    if path == [] then Some(v)
    else match v
      case JObject(ms) =>
        (match Lookup(ms, path[0])
         case Some(x) => At(x, path[1..])
         case None => None)
      case _ => None
  }

  /** The violation names an instance that exists and really breaks the keyword. */
  predicate Genuine(v: JsonValue, e: Violation)
  {
    match At(v, e.path)
    case None => false
    case Some(x) =>
      match e.failure
      case WrongType(t) => !HasType(x, t)
      case MissingRequired(name) => x.JObject? && Lookup(x.members, name).None?
  }

  /** Every violation the validator reports is a real one. */
  lemma {:induction false} ErrorsAreGenuine(s: Schema, v: JsonValue)
    ensures forall e :: e in Errors(s, v) ==> Genuine(v, e)
    decreases s, |s.properties| + 1
  {
    var typeErrs := if s.typ.Some? && !HasType(v, s.typ.value) then [Violation([], WrongType(s.typ.value))] else [];
    assert At(v, []) == Some(v);
    assert forall e :: e in typeErrs ==> Genuine(v, e);
    if v.JObject? {
      var ms := v.members;
      PropertyErrorsAreGenuine(s, 0, ms);
      RequiredErrorsAreGenuine(s.required, ms);
      var propErrs, reqErrs := PropertyErrors(s, 0, ms), RequiredErrors(s.required, ms);
      assert Errors(s, v) == typeErrs + propErrs + reqErrs;
      forall e | e in typeErrs + propErrs + reqErrs ensures Genuine(v, e) {
        assert e in typeErrs || e in propErrs || e in reqErrs;
      }
    } else {
      assert Errors(s, v) == typeErrs;
    }
  }

  lemma {:induction false} PropertyErrorsAreGenuine(s: Schema, i: nat, ms: seq<Member>)
    requires i <= |s.properties|
    ensures forall e :: e in PropertyErrors(s, i, ms) ==> Genuine(JObject(ms), e)
    decreases s, |s.properties| - i
  {
    if i < |s.properties| {
      var p := s.properties[i];
      assert p in s.properties;
      PropertyErrorsAreGenuine(s, i + 1, ms);
      match Lookup(ms, p.name)
      case None =>
        assert PropertyErrors(s, i, ms) == PropertyErrors(s, i + 1, ms);
      case Some(x) =>
        ErrorsAreGenuine(p.schema, x);
        var errs := Errors(p.schema, x);
        var under := Under(p.name, errs);
        forall e | e in under ensures Genuine(JObject(ms), e) {
          var k :| 0 <= k < |under| && under[k] == e;
          assert errs[k] in errs;
          assert e.path[1..] == errs[k].path;
        }
        assert PropertyErrors(s, i, ms) == under + PropertyErrors(s, i + 1, ms);
    }
  }

  lemma {:induction false} RequiredErrorsAreGenuine(required: seq<string>, ms: seq<Member>)
    ensures forall e :: e in RequiredErrors(required, ms) ==> Genuine(JObject(ms), e)
  {
    if required != [] {
      RequiredErrorsAreGenuine(required[1..], ms);
    }
  }

  /** `required` reports nothing exactly when every listed key is present. */
  lemma {:induction false} RequiredErrorsEmpty(required: seq<string>, ms: seq<Member>)
    ensures RequiredErrors(required, ms) == [] <==> forall k :: k in required ==> Lookup(ms, k).Some?
  {
    if required != [] {
      RequiredErrorsEmpty(required[1..], ms);
      var head := if Lookup(ms, required[0]).None? then [Violation([], MissingRequired(required[0]))] else [];
      var rest := RequiredErrors(required[1..], ms);
      assert RequiredErrors(required, ms) == head + rest;
      assert head + rest == [] <==> head == [] && rest == [] by {
        assert |head + rest| == |head| + |rest|;
      }
      assert head == [] <==> Lookup(ms, required[0]).Some?;
      if forall k :: k in required ==> Lookup(ms, k).Some? {
        assert required[0] in required;
        assert forall k :: k in required[1..] ==> k in required;
      } else {
        var k :| k in required && Lookup(ms, k).None?;
        if k != required[0] {
          assert k in required[1..];
        }
      }
    }
  }

  /** `format` is an annotation: changing it never changes the verdict or the violations. */
  lemma {:induction false} FormatIsAnnotation(s: Schema, f: Option<string>, v: JsonValue)
    ensures Errors(s.(format := f), v) == Errors(s, v)
  {
    if v.JObject? {
      PropertyErrorsIgnoreFormat(s, f, 0, v.members);
    }
  }

  lemma {:induction false} PropertyErrorsIgnoreFormat(s: Schema, f: Option<string>, i: nat, ms: seq<Member>)
    requires i <= |s.properties|
    ensures PropertyErrors(s.(format := f), i, ms) == PropertyErrors(s, i, ms)
    decreases |s.properties| - i
  {
    if i < |s.properties| {
      PropertyErrorsIgnoreFormat(s, f, i + 1, ms);
    }
  }

  /** A value that is not an object fails `type` and nothing else. */
  lemma NonObjectFailsTypeOnly(v: JsonValue)
    requires !v.JObject?
    ensures Errors(TransactionSchema, v) == [Violation([], WrongType(ObjectType))]
  {
  }

  /** A one-keyword type schema accepts exactly the values of that type. */
  lemma OfTypeValid(t: JsonType, x: JsonValue)
    ensures Valid(OfType(t), x) <==> HasType(x, t)
  {
    var s := OfType(t);
    if x.JObject? {
      assert PropertyErrors(s, 0, x.members) == [];
      assert RequiredErrors(s.required, x.members) == [];
    }
  }

  /**
   * The validator, run on `TRANSACTION_SCHEMA`, accepts exactly the
   * transactions.
   */
  lemma TransactionSchemaAcceptsExactlyTransactions(v: JsonValue)
    ensures Valid(TransactionSchema, v) <==> IsTransaction(v)
  {
    if v.JObject? {
      var ms := v.members;
      ObjectErrors(TransactionSchema, ms);
      TransactionRequired(ms);
      TransactionProperties(ms);
    }
  }

  /** For a schema that admits objects by `type`, an object can only fail `properties` and `required`. */
  lemma ObjectErrors(s: Schema, ms: seq<Member>)
    requires s.typ == Some(ObjectType)
    ensures Errors(s, JObject(ms)) == PropertyErrors(s, 0, ms) + RequiredErrors(s.required, ms)
  {
    assert Errors(s, JObject(ms)) == [] + (PropertyErrors(s, 0, ms) + RequiredErrors(s.required, ms));
  }

  lemma TransactionRequired(ms: seq<Member>)
    ensures RequiredErrors(TransactionSchema.required, ms) == [] <==> HasAllRequired(ms)
  {
    var req := TransactionSchema.required;
    RequiredErrorsEmpty(req, ms);
    assert req[0] == "transaction_id" && req[1] == "created_at" && req[2] == "amount";
    assert req[0] in req && req[1] in req && req[2] in req;
    assert forall k :: k in req ==> k == req[0] || k == req[1] || k == req[2];
  }

  lemma TransactionProperties(ms: seq<Member>)
    ensures PropertyErrors(TransactionSchema, 0, ms) == [] <==> PropertiesConform(ms)
  {
    var ps := TransactionSchema.properties;
    PropertyErrorsEmpty(TransactionSchema, 0, ms);
    MemberConformsOfType(ps[0], ms);
    MemberConformsDateTime(ps[1], ms);
    MemberConformsOfType(ps[2], ms);
    MemberConformsOfType(ps[3], ms);
    assert (forall j :: 0 <= j < 4 ==> MemberConforms(ps[j], ms))
      <==> MemberConforms(ps[0], ms) && MemberConforms(ps[1], ms) && MemberConforms(ps[2], ms) && MemberConforms(ps[3], ms);
  }

  predicate HasAllRequired(ms: seq<Member>)
  {
    Lookup(ms, "transaction_id").Some? && Lookup(ms, "created_at").Some? && Lookup(ms, "amount").Some?
  }

  predicate PropertiesConform(ms: seq<Member>)
  {
    && OptionalField(ms, "transaction_id", StringType)
    && OptionalField(ms, "created_at", StringType)
    && OptionalField(ms, "amount", NumberType)
    && OptionalField(ms, "customer_id", StringType)
  }

  /** The member named by property `p` is absent or valid against its sub-schema. */
  predicate MemberConforms(p: Property, ms: seq<Member>)
  {
    Lookup(ms, p.name).Some? ==> Valid(p.schema, Lookup(ms, p.name).value)
  }

  /** `properties` reports nothing exactly when each listed member conforms. */
  lemma {:induction false} PropertyErrorsEmpty(s: Schema, i: nat, ms: seq<Member>)
    requires i <= |s.properties|
    ensures PropertyErrors(s, i, ms) == [] <==> forall j :: i <= j < |s.properties| ==> MemberConforms(s.properties[j], ms)
    decreases |s.properties| - i
  {
    if i < |s.properties| {
      PropertyErrorsEmpty(s, i + 1, ms);
      var p := s.properties[i];
      var rest := PropertyErrors(s, i + 1, ms);
      match Lookup(ms, p.name)
      case None =>
        assert PropertyErrors(s, i, ms) == rest;
      case Some(x) =>
        var under := Under(p.name, Errors(p.schema, x));
        assert PropertyErrors(s, i, ms) == under + rest;
        assert under == [] <==> Valid(p.schema, x);
    }
  }

  lemma MemberConformsOfType(p: Property, ms: seq<Member>)
    requires p.schema.typ.Some? && p.schema == OfType(p.schema.typ.value)
    ensures MemberConforms(p, ms) <==> OptionalField(ms, p.name, p.schema.typ.value)
  {
    if Lookup(ms, p.name).Some? {
      OfTypeValid(p.schema.typ.value, Lookup(ms, p.name).value);
    }
  }

  lemma MemberConformsDateTime(p: Property, ms: seq<Member>)
    requires p == Property("created_at", Schema(Some(StringType), Some("date-time"), [], []))
    ensures MemberConforms(p, ms) <==> OptionalField(ms, p.name, StringType)
  {
    if Lookup(ms, p.name).Some? {
      var x := Lookup(ms, p.name).value;
      FormatIsAnnotation(OfType(StringType), Some("date-time"), x);
      OfTypeValid(StringType, x);
    }
  }
}
