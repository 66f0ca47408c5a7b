/** The part of the Joi validation library the schemas of `src/validation/`
    use, as a small schema language and its interpreter, run the way
    `validateSchema` runs it (`abortEarly: false`: every violation is
    reported). For one key Joi checks, in this order: presence; a `valid(ref)`
    list, which accepts a value equal to the referenced key's at once; the base
    type, whose failure ends the checks of that key; then every rule in the
    order the schema chains them. An object schema checks its keys in the
    order it declares them, then reports every key of the value it does not
    declare, unless it allows unknown keys. */
module Joi {
  import opened Wrappers
  import opened JsString
  import opened Json
  import opened Patterns
  import opened Errors

  /** The library's own tests, which the model does not reimplement. */
  datatype Builtins = Builtins(
    /** `string().email({tlds: {allow: false}})` */
    isEmail: string -> bool,
    /** The ISO 8601 format test of `date().iso()` */
    isIsoDate: string -> bool,
    /** Whether an ISO string names a real instant (`new Date(s)` is not NaN) */
    validDate: string -> bool,
    /** `number()`'s conversion of a numeric string; None for a non-numeric one */
    toNumber: string -> Option<real>,
    /** Whether that conversion keeps every significant digit of the string
        (otherwise `number()` refuses it as `number.unsafe`) */
    convertsExactly: string -> bool,
    /** `String(n)`: the decimal text of a number, which `date().iso()` tests */
    numberText: real -> string,
    /** The library's default message for an error code and a key */
    defaultMessage: (Code, string) -> string
  )

  datatype StringRule =
    | MinLength(limit: nat)   // `.min(n)`: at least n UTF-16 code units
    | MaxLength(limit: nat)   // `.max(n)`
    | Matches(pattern: Pattern) // `.pattern(re)`
    | EmailAddress            // `.email(…)`

  datatype Pattern = PasswordPattern | NamePattern | PhonePattern | TokenPattern

  datatype NumberRule =
    | Integer                 // `.integer()`
    | AtLeast(limit: int)     // `.min(n)`
    | AtMost(limit: int)      // `.max(n)`

  datatype Type =
    | StringType(stringRules: seq<StringRule>)  // `Joi.string()`
    | NumberType(numberRules: seq<NumberRule>)  // `Joi.number()`
    | IsoDateType                         // `Joi.date().iso()`
    | AnyType                             // `Joi.any()`

  datatype Presence = Required | Optional

  /** One entry of `.messages({code: text})`. */
  datatype Custom = Custom(code: Code, text: string)

  /** A schema for one value. `sameAs` is `.valid(Joi.ref(key))`. */
  datatype Field = Field(typ: Type, presence: Presence, sameAs: Option<string>, messages: seq<Custom>)

  /** The schema of one key: a field, or `Joi.alternatives().try(…)`. */
  datatype KeySchema =
    | Single(field: Field)
    | OneOf(options: seq<Field>, presence: Presence, messages: seq<Custom>)

  datatype Key = Key(name: string, schema: KeySchema)

  /** `Joi.object({…})`, with `.unknown(true)` when `allowUnknown`. */
  datatype ObjectSchema = ObjectSchema(keys: seq<Key>, allowUnknown: bool)

  /** An error of one value: Joi's code, and the schema's custom message for it. */
  datatype Report = Report(code: Code, custom: Option<string>)

  /** The custom message a schema sets for a code. */
  function Lookup(messages: seq<Custom>, code: Code): (m: Option<string>)
    ensures m.Some? <==> exists i :: 0 <= i < |messages| && messages[i].code == code
    ensures m.Some? ==> Custom(code, m.value) in messages
  {
    if messages == [] then None
    else if messages[0].code == code then Some(messages[0].text)
    else Lookup(messages[1..], code)
  }

  function Reports(codes: seq<Code>, messages: seq<Custom>): (rs: seq<Report>)
    ensures |rs| == |codes|
  {
    seq(|codes|, i requires 0 <= i < |codes| => Report(codes[i], Lookup(messages, codes[i])))
  }

  function StringRulePasses(b: Builtins, r: StringRule, s: string): bool {
    match r
    case MinLength(n) => Length(s) >= n
    case MaxLength(n) => Length(s) <= n
    case Matches(p) => PatternMatches(p, s)
    case EmailAddress => b.isEmail(s)
  }

  function PatternMatches(p: Pattern, s: string): bool {
    match p
    case PasswordPattern => PasswordMatch(s)
    case NamePattern => NameMatch(s)
    case PhonePattern => PhoneMatch(s)
    case TokenPattern => TokenMatch(s)
  }

  function StringRuleCode(r: StringRule): Code {
    match r
    case MinLength(_) => Code("string", "min")
    case MaxLength(_) => Code("string", "max")
    case Matches(_) => Code("string", "pattern.base")
    case EmailAddress => Code("string", "email")
  }

  /** The codes of the failing string rules, in chain order. */
  function StringCodes(b: Builtins, rules: seq<StringRule>, s: string): (cs: seq<Code>)
    ensures cs == [] <==> forall i :: 0 <= i < |rules| ==> StringRulePasses(b, rules[i], s)
  {
    if rules == [] then []
    else
      var rest := StringCodes(b, rules[1..], s);
      assert forall i :: 1 <= i < |rules| ==> rules[i] == rules[1..][i - 1];
      (if StringRulePasses(b, rules[0], s) then [] else [StringRuleCode(rules[0])]) + rest
  }

  function NumberRulePasses(r: NumberRule, n: real): bool {
    match r
    case Integer => n.Floor as real == n
    case AtLeast(m) => n >= m as real
    case AtMost(m) => n <= m as real
  }

  function NumberRuleCode(r: NumberRule): Code {
    match r
    case Integer => Code("number", "integer")
    case AtLeast(_) => Code("number", "min")
    case AtMost(_) => Code("number", "max")
  }

  /** The codes of the failing number rules, in chain order. */
  function NumberCodes(rules: seq<NumberRule>, n: real): (cs: seq<Code>)
    ensures cs == [] <==> forall i :: 0 <= i < |rules| ==> NumberRulePasses(rules[i], n)
  {
    if rules == [] then []
    else
      var rest := NumberCodes(rules[1..], n);
      assert forall i :: 1 <= i < |rules| ==> rules[i] == rules[1..][i - 1];
      (if NumberRulePasses(rules[0], n) then [] else [NumberRuleCode(rules[0])]) + rest
  }

  /** `Number.MAX_SAFE_INTEGER`, 2^53 - 1. */
  const MaxSafeInteger: int := 0x1F_FFFF_FFFF_FFFF

  /** Within the range `number()` accepts unless `.unsafe()` is set. */
  predicate SafeNumber(n: real) {
    -MaxSafeInteger as real <= n <= MaxSafeInteger as real
  }

  /** The number a value stands for: a number, or a string `number()` converts. */
  function Numeric(b: Builtins, v: Value): Option<real> {
    match v
    case Num(n) => Some(n)
    case Str(s) => b.toNumber(s)
    case _ => None
  }

  /** The base test of `number()`: `number.base` for a value that is no number
      and converts to none, `number.unsafe` for a conversion that loses digits
      or a number outside the safe range. */
  function NumberBase(b: Builtins, v: Value): (c: Option<Code>)
    ensures Numeric(b, v).None? ==> c == Some(Code("number", "base"))
    ensures Numeric(b, v).Some? && !SafeNumber(Numeric(b, v).value) ==> c == Some(Code("number", "unsafe"))
    ensures c.None? <==> Numeric(b, v).Some? && SafeNumber(Numeric(b, v).value) && (v.Str? ==> b.convertsExactly(v.s))
  {
    match Numeric(b, v)
    case None => Some(Code("number", "base"))
    case Some(n) =>
      if (v.Str? && !b.convertsExactly(v.s)) || !SafeNumber(n) then Some(Code("number", "unsafe")) else None
  }

  /** The number `number()` accepts a value as, if its base test passes. */
  function AsNumber(b: Builtins, v: Value): (n: Option<real>)
    ensures n.Some? <==> NumberBase(b, v).None?
    ensures n.Some? ==> n == Numeric(b, v) && SafeNumber(n.value)
  {
    if NumberBase(b, v).None? then Numeric(b, v) else None
  }

  /** `date().iso()` accepts a string the ISO test accepts and `new Date` parses. */
  predicate IsoDate(b: Builtins, s: string) {
    b.isIsoDate(s) && b.validDate(s)
  }

  /** The base type test, then the rules. A failed base test is the only error.
      `date().iso()` converts a string or a number it can parse into a date:
      a string it cannot parse stays a string and fails with `date.format`; a
      number is tested on its decimal text and, when that fails, stays a number
      and fails with `date.base`, as every other value does. */
  function TypeCodes(b: Builtins, t: Type, v: Value): seq<Code> {
    match t
    case StringType(rules) =>
      if !v.Str? then [Code("string", "base")]
      else if v.s == "" then [Code("string", "empty")]
      else StringCodes(b, rules, v.s)
    case NumberType(rules) =>
      (match NumberBase(b, v)
       case Some(c) => [c]
       case None => NumberCodes(rules, Numeric(b, v).value))
    case IsoDateType =>
      (match v
       case Str(s) => if IsoDate(b, s) then [] else [Code("date", "format")]
       case Num(n) => if IsoDate(b, b.numberText(n)) then [] else [Code("date", "base")]
       case _ => [Code("date", "base")])
    case AnyType => []
  }

  /** The errors of one field for the value `v` (None: the key is absent) of the object `data`. */
  function FieldCodes(b: Builtins, data: Record, f: Field, v: Option<Value>): seq<Code> {
    match v
    case None => if f.presence == Required then [Code("any", "required")] else []
    case Some(x) =>
      if f.sameAs.Some? && Get(data, f.sameAs.value) == Some(x) then []
      else (if f.sameAs.Some? then [Code("any", "only")] else []) + TypeCodes(b, f.typ, x)
  }

  function FieldReports(b: Builtins, data: Record, f: Field, v: Option<Value>): seq<Report> {
    Reports(FieldCodes(b, data, f, v), f.messages)
  }

  /** How `alternatives` reads a failed option with a single error: Joi splits
      the code on dots and takes a second piece `base` for a failed base type.
      The type part holds no dot, so the second piece is the kind up to its own
      first dot. */
  predicate IsTypeCode(code: Code) {
    code.kind == "base" || (|code.kind| >= 5 && code.kind[..5] == "base.")
  }

  /** The single errors of the failed options that are neither `any.only` nor a base type. */
  function Complex(failures: seq<seq<Report>>): (cs: seq<Report>)
    requires forall i :: 0 <= i < |failures| ==> |failures[i]| == 1
  {
    if failures == [] then []
    else
      var r := failures[0][0];
      (if r.code == Code("any", "only") || IsTypeCode(r.code) then [] else [r]) + Complex(failures[1..])
  }

  /** What `alternatives` reports when no option accepts: the one option's
      errors if there is one; otherwise `alternatives.match` when some option
      failed more than once or several failed on their rules, that failure
      itself when exactly one failed on its rules, and `alternatives.types`
      when every option failed on its type. */
  function Unmatched(failures: seq<seq<Report>>, messages: seq<Custom>): seq<Report> {
    if failures == [] then Reports([Code("alternatives", "any")], messages)
    else if |failures| == 1 then failures[0]
    else if exists i :: 0 <= i < |failures| && |failures[i]| != 1 then Reports([Code("alternatives", "match")], messages)
    else
      var complex := Complex(failures);
      if complex == [] then Reports([Code("alternatives", "types")], messages)
      else if |complex| == 1 then complex
      else Reports([Code("alternatives", "match")], messages)
  }

  /** The errors of one key. */
  function KeyReports(b: Builtins, data: Record, k: KeySchema, v: Option<Value>): seq<Report> {
    match k
    case Single(f) => FieldReports(b, data, f, v)
    case OneOf(options, presence, messages) =>
      match v
      case None => if presence == Required then Reports([Code("any", "required")], messages) else []
      case Some(_) =>
        var failures := Attempts(b, data, options, v);
        if exists i :: 0 <= i < |options| && failures[i] == [] then []
        else Unmatched(failures, messages)
  }

  /** The errors of each option of an alternatives schema, tried in order. */
  function Attempts(b: Builtins, data: Record, options: seq<Field>, v: Option<Value>): (rs: seq<seq<Report>>)
    ensures |rs| == |options|
    ensures forall i :: 0 <= i < |options| ==> rs[i] == FieldReports(b, data, options[i], v)
  {
    seq(|options|, i requires 0 <= i < |options| => FieldReports(b, data, options[i], v))
  }

  /** Every key of `data` is one of `names`. */
  predicate OnlyKeys(data: Record, names: seq<string>) {
    forall i :: 0 <= i < |data| ==> data[i].key in names
  }

  function Names(keys: seq<Key>): seq<string> {
    seq(|keys|, i requires 0 <= i < |keys| => keys[i].name)
  }

  function AtKey(name: string, rs: seq<Report>): (ds: seq<Detail>)
    ensures |ds| == |rs|
  {
    seq(|rs|, i requires 0 <= i < |rs| => Detail(name, rs[i].code, rs[i].custom))
  }

  /** The errors of the declared keys, key by key in declaration order. */
  function KeysDetails(b: Builtins, data: Record, keys: seq<Key>): seq<Detail> {
    if keys == [] then []
    else AtKey(keys[0].name, KeyReports(b, data, keys[0].schema, Get(data, keys[0].name)))
         + KeysDetails(b, data, keys[1..])
  }

  /** `object.unknown` for every key of the value the schema does not declare, in the value's key order. */
  function UnknownDetails(data: Record, names: seq<string>): seq<Detail> {
    if data == [] then []
    else (if data[0].key in names then [] else [Detail(data[0].key, Code("object", "unknown"), None)])
         + UnknownDetails(data[1..], names)
  }

  /** `schema.validate(data, {abortEarly: false}).error.details`; empty when the value is valid. */
  function Validate(b: Builtins, schema: ObjectSchema, data: Record): seq<Detail> {
    KeysDetails(b, data, schema.keys)
      + (if schema.allowUnknown then [] else UnknownDetails(data, Names(schema.keys)))
  }

  /** `err.message`: the schema's custom message, or the library's default. */
  function Message(b: Builtins, d: Detail): string {
    if d.custom.Some? then d.custom.value else b.defaultMessage(d.code, d.path)
  }

  // ---------------------------------------------------------------------
  // What the interpreter means.

  lemma {:induction false} KeysDetailsEmpty(b: Builtins, data: Record, keys: seq<Key>)
    ensures KeysDetails(b, data, keys) == [] <==> forall i :: 0 <= i < |keys| ==> KeyAccepts(b, data, keys[i])
  {
    if keys != [] {
      KeysDetailsEmpty(b, data, keys[1..]);
      assert forall i :: 1 <= i < |keys| ==> keys[i] == keys[1..][i - 1];
    }
  }

  lemma {:induction false} UnknownDetailsEmpty(data: Record, names: seq<string>)
    ensures UnknownDetails(data, names) == [] <==> OnlyKeys(data, names)
  {
    if data != [] {
      UnknownDetailsEmpty(data[1..], names);
      assert forall i :: 1 <= i < |data| ==> data[i] == data[1..][i - 1];
    }
  }

  /** The declared key `k` accepts its value in `data`. */
  predicate KeyAccepts(b: Builtins, data: Record, k: Key) {
    KeyReports(b, data, k.schema, Get(data, k.name)) == []
  }

  /** A value is valid exactly when every declared key accepts its value and,
      unless unknown keys are allowed, the value has no other key. */
  lemma ValidateEmpty(b: Builtins, schema: ObjectSchema, data: Record)
    ensures Validate(b, schema, data) == [] <==>
      && (forall i :: 0 <= i < |schema.keys| ==> KeyAccepts(b, data, schema.keys[i]))
      && (schema.allowUnknown || OnlyKeys(data, Names(schema.keys)))
  {
    KeysDetailsEmpty(b, data, schema.keys);
    UnknownDetailsEmpty(data, Names(schema.keys));
  }

  /** The declared keys are checked one after the other. */
  lemma KeysDetailsCons(b: Builtins, data: Record, keys: seq<Key>)
    requires keys != []
    ensures KeysDetails(b, data, keys) == [] <==> KeyAccepts(b, data, keys[0]) && KeysDetails(b, data, keys[1..]) == []
  {
  }

  /** A schema accepts exactly when its declared keys do and, unless unknown
      keys are allowed, the value has no other key. */
  lemma ValidateSplit(b: Builtins, schema: ObjectSchema, data: Record)
    ensures Validate(b, schema, data) == [] <==>
      KeysDetails(b, data, schema.keys) == [] && (schema.allowUnknown || OnlyKeys(data, Names(schema.keys)))
  {
    UnknownDetailsEmpty(data, Names(schema.keys));
  }

  /** The errors of two lists of keys, one after the other. */
  lemma {:induction false} KeysDetailsAppend(b: Builtins, data: Record, keys: seq<Key>, more: seq<Key>)
    ensures KeysDetails(b, data, keys + more) == KeysDetails(b, data, keys) + KeysDetails(b, data, more)
  {
    if keys == [] {
      assert keys + more == more;
    } else {
      assert (keys + more)[1..] == keys[1..] + more;
      KeysDetailsAppend(b, data, keys[1..], more);
    }
  }

  /** One declared key accepts. */
  lemma KeysAccept1(b: Builtins, data: Record, k: seq<Key>)
    requires |k| == 1
    ensures KeysDetails(b, data, k) == [] <==> KeyAccepts(b, data, k[0])
  {
    KeysDetailsCons(b, data, k);
    assert k[1..] == [];
  }

  /** Both declared keys accept. */
  lemma KeysAccept2(b: Builtins, data: Record, k: seq<Key>)
    requires |k| == 2
    ensures KeysDetails(b, data, k) == [] <==> KeyAccepts(b, data, k[0]) && KeyAccepts(b, data, k[1])
  {
    KeysDetailsCons(b, data, k);
    KeysDetailsCons(b, data, k[1..]);
    assert k[1..][0] == k[1] && k[1..][1..] == [];
  }

  /** All three declared keys accept. */
  lemma KeysAccept3(b: Builtins, data: Record, k: seq<Key>)
    requires |k| == 3
    ensures KeysDetails(b, data, k) == [] <==>
      KeyAccepts(b, data, k[0]) && KeyAccepts(b, data, k[1]) && KeyAccepts(b, data, k[2])
  {
    KeysDetailsCons(b, data, k);
    KeysAccept2(b, data, k[1..]);
    assert k[1..][0] == k[1] && k[1..][1] == k[2];
  }

  /** All five declared keys accept. */
  lemma KeysAccept5(b: Builtins, data: Record, k: seq<Key>)
    requires |k| == 5
    ensures KeysDetails(b, data, k) == [] <==>
      && KeyAccepts(b, data, k[0]) && KeyAccepts(b, data, k[1]) && KeyAccepts(b, data, k[2])
      && KeyAccepts(b, data, k[3]) && KeyAccepts(b, data, k[4])
  {
    KeysDetailsCons(b, data, k);
    KeysDetailsCons(b, data, k[1..]);
    KeysAccept3(b, data, k[2..]);
    assert k[1..][0] == k[1] && k[1..][1..] == k[2..];
    assert k[2..][0] == k[2] && k[2..][1] == k[3] && k[2..][2] == k[4];
  }

  lemma {:induction false} KeysDetailsCollect(b: Builtins, data: Record, keys: seq<Key>, i: nat, j: nat)
    requires i < |keys|
    requires j < |KeyReports(b, data, keys[i].schema, Get(data, keys[i].name))|
    ensures var r := KeyReports(b, data, keys[i].schema, Get(data, keys[i].name))[j];
      Detail(keys[i].name, r.code, r.custom) in KeysDetails(b, data, keys)
  {
    var rs := KeyReports(b, data, keys[0].schema, Get(data, keys[0].name));
    var first := AtKey(keys[0].name, rs);
    var rest := KeysDetails(b, data, keys[1..]);
    assert KeysDetails(b, data, keys) == first + rest;
    if i == 0 {
      assert first[j] == Detail(keys[0].name, rs[j].code, rs[j].custom);
      assert first[j] in first + rest;
    } else {
      assert keys[1..][i - 1] == keys[i];
      KeysDetailsCollect(b, data, keys[1..], i - 1, j);
      var r := KeyReports(b, data, keys[i].schema, Get(data, keys[i].name))[j];
      assert Detail(keys[i].name, r.code, r.custom) in rest;
    }
  }

  lemma {:induction false} UnknownDetailsCollect(data: Record, names: seq<string>, i: nat)
    requires i < |data| && data[i].key !in names
    ensures Detail(data[i].key, Code("object", "unknown"), None) in UnknownDetails(data, names)
  {
    if i > 0 {
      UnknownDetailsCollect(data[1..], names, i - 1);
      assert data[1..][i - 1] == data[i];
    }
  }

  /** Nothing stops at the first violation: every error of every declared key
      is reported under its key, and so is every undeclared key. */
  lemma ValidateCollectsAll(b: Builtins, schema: ObjectSchema, data: Record)
    ensures forall i, j ::
      (0 <= i < |schema.keys| && 0 <= j < |KeyReports(b, data, schema.keys[i].schema, Get(data, schema.keys[i].name))|) ==>
      var r := KeyReports(b, data, schema.keys[i].schema, Get(data, schema.keys[i].name))[j];
      Detail(schema.keys[i].name, r.code, r.custom) in Validate(b, schema, data)
    ensures !schema.allowUnknown ==> forall i :: 0 <= i < |data| && data[i].key !in Names(schema.keys) ==>
      Detail(data[i].key, Code("object", "unknown"), None) in Validate(b, schema, data)
  {
    forall i, j | 0 <= i < |schema.keys| &&
        0 <= j < |KeyReports(b, data, schema.keys[i].schema, Get(data, schema.keys[i].name))|
      ensures var r := KeyReports(b, data, schema.keys[i].schema, Get(data, schema.keys[i].name))[j];
        Detail(schema.keys[i].name, r.code, r.custom) in Validate(b, schema, data)
    {
      KeysDetailsCollect(b, data, schema.keys, i, j);
    }
    if !schema.allowUnknown {
      forall i | 0 <= i < |data| && data[i].key !in Names(schema.keys)
        ensures Detail(data[i].key, Code("object", "unknown"), None) in Validate(b, schema, data)
      {
        UnknownDetailsCollect(data, Names(schema.keys), i);
      }
    }
  }

  /** A string field without a `valid` list accepts exactly an absent optional
      key or a non-empty string every rule accepts. */
  lemma StringFieldAccepts(b: Builtins, data: Record, f: Field, v: Option<Value>)
    requires f.typ.StringType? && f.sameAs.None?
    ensures FieldReports(b, data, f, v) == [] <==>
      || (v.None? && f.presence == Optional)
      || (v.Some? && v.value.Str? && v.value.s != ""
          && forall i :: 0 <= i < |f.typ.stringRules| ==> StringRulePasses(b, f.typ.stringRules[i], v.value.s))
  {
  }

  /** A single error code becomes one report, with the schema's message for it. */
  lemma ReportsOne(code: Code, messages: seq<Custom>)
    ensures Reports([code], messages) == [Report(code, Lookup(messages, code))]
  {
  }

  /** Every rule of a chain of two passes when both do. */
  lemma StringRulesPass2(b: Builtins, rules: seq<StringRule>, s: string)
    requires |rules| == 2
    ensures (forall i :: 0 <= i < |rules| ==> StringRulePasses(b, rules[i], s)) <==>
      StringRulePasses(b, rules[0], s) && StringRulePasses(b, rules[1], s)
  {
  }

  /** Every rule of a chain of three passes when all three do. */
  lemma StringRulesPass3(b: Builtins, rules: seq<StringRule>, s: string)
    requires |rules| == 3
    ensures (forall i :: 0 <= i < |rules| ==> StringRulePasses(b, rules[i], s)) <==>
      StringRulePasses(b, rules[0], s) && StringRulePasses(b, rules[1], s) && StringRulePasses(b, rules[2], s)
  {
  }

  /** Every rule of a chain of three number rules passes when all three do. */
  lemma NumberRulesPass3(rules: seq<NumberRule>, n: real)
    requires |rules| == 3
    ensures (forall i :: 0 <= i < |rules| ==> NumberRulePasses(rules[i], n)) <==>
      NumberRulePasses(rules[0], n) && NumberRulePasses(rules[1], n) && NumberRulePasses(rules[2], n)
  {
  }

  /** A number field without a `valid` list accepts exactly an absent optional
      key or a value that is, or converts without loss to, a number in the safe
      range every rule accepts. */
  lemma NumberFieldAccepts(b: Builtins, data: Record, f: Field, v: Option<Value>)
    requires f.typ.NumberType? && f.sameAs.None?
    ensures FieldReports(b, data, f, v) == [] <==>
      || (v.None? && f.presence == Optional)
      || (v.Some? && AsNumber(b, v.value).Some?
          && forall i :: 0 <= i < |f.typ.numberRules| ==> NumberRulePasses(f.typ.numberRules[i], AsNumber(b, v.value).value))
  {
  }

  /** A value that is, or converts to, a number beyond 2^53 - 1 either way
      fails with `number.unsafe` alone, whatever the rules. */
  lemma NumberFieldUnsafe(b: Builtins, data: Record, f: Field, v: Value)
    requires f.typ.NumberType? && f.sameAs.None?
    requires Numeric(b, v).Some? && !SafeNumber(Numeric(b, v).value)
    ensures FieldReports(b, data, f, Some(v)) == [Report(Code("number", "unsafe"), Lookup(f.messages, Code("number", "unsafe")))]
  {
  }

  /** A field with `valid(ref)` accepts a present value exactly when it equals
      the referenced key's value, and never reports a value that does. */
  lemma SameAsAccepts(b: Builtins, data: Record, f: Field, v: Value)
    requires f.sameAs.Some?
    ensures FieldReports(b, data, f, Some(v)) == [] <==> Get(data, f.sameAs.value) == Some(v)
    ensures Get(data, f.sameAs.value) != Some(v) ==>
      FieldReports(b, data, f, Some(v))[0] == Report(Code("any", "only"), Lookup(f.messages, Code("any", "only")))
  {
  }

  /** Alternatives accept a present value exactly when one of the options does. */
  lemma OneOfAccepts(b: Builtins, data: Record, options: seq<Field>, presence: Presence, messages: seq<Custom>, v: Value)
    ensures KeyReports(b, data, OneOf(options, presence, messages), Some(v)) == [] <==>
      exists i :: 0 <= i < |options| && FieldReports(b, data, options[i], Some(v)) == []
  {
    var failures := Attempts(b, data, options, Some(v));
    var r := KeyReports(b, data, OneOf(options, presence, messages), Some(v));
    if exists i :: 0 <= i < |options| && failures[i] == [] {
      assert r == [];
    } else {
      assert r == Unmatched(failures, messages);
      UnmatchedNonEmpty(failures, messages);
    }
  }

  /** The codes of string rules are read as rule failures, not type failures. */
  lemma RuleCodesNotTypes()
    ensures !IsTypeCode(Code("string", "email")) && !IsTypeCode(Code("string", "pattern.base"))
  {
    assert "email"[0] != "base."[0];
    assert "pattern.base"[0] != "base."[0];
  }

  /** Alternatives of two options accept a present value exactly when either option does. */
  lemma OneOf2Accepts(b: Builtins, data: Record, o0: Field, o1: Field, presence: Presence, messages: seq<Custom>, v: Value)
    ensures KeyReports(b, data, OneOf([o0, o1], presence, messages), Some(v)) == [] <==>
      FieldReports(b, data, o0, Some(v)) == [] || FieldReports(b, data, o1, Some(v)) == []
  {
    var opts := [o0, o1];
    OneOfAccepts(b, data, opts, presence, messages, v);
    if FieldReports(b, data, o0, Some(v)) == [] {
      assert FieldReports(b, data, opts[0], Some(v)) == [];
    }
    if FieldReports(b, data, o1, Some(v)) == [] {
      assert FieldReports(b, data, opts[1], Some(v)) == [];
    }
  }

  /** Two options that each fail on exactly one rule (not on their type, not on
      a `valid` list) make alternatives report `alternatives.match`. */
  lemma OneOf2Mismatch(b: Builtins, data: Record, o0: Field, o1: Field, presence: Presence, messages: seq<Custom>,
                       v: Value, r0: Report, r1: Report)
    requires FieldReports(b, data, o0, Some(v)) == [r0] && FieldReports(b, data, o1, Some(v)) == [r1]
    requires r0.code != Code("any", "only") && !IsTypeCode(r0.code)
    requires r1.code != Code("any", "only") && !IsTypeCode(r1.code)
    ensures KeyReports(b, data, OneOf([o0, o1], presence, messages), Some(v))
         == [Report(Code("alternatives", "match"), Lookup(messages, Code("alternatives", "match")))]
  {
    var opts := [o0, o1];
    var failures := Attempts(b, data, opts, Some(v));
    assert failures[0] == [r0] && failures[1] == [r1];
    var tail := failures[1..];
    assert tail[0] == [r1] && tail[1..] == [];
    assert Complex(tail) == [r1];
    assert Complex(failures) == [r0, r1];
  }

  /** Two options that both fail on their base type make alternatives report `alternatives.types`. */
  lemma OneOf2Types(b: Builtins, data: Record, o0: Field, o1: Field, presence: Presence, messages: seq<Custom>,
                    v: Value, r0: Report, r1: Report)
    requires FieldReports(b, data, o0, Some(v)) == [r0] && FieldReports(b, data, o1, Some(v)) == [r1]
    requires IsTypeCode(r0.code) && IsTypeCode(r1.code)
    ensures KeyReports(b, data, OneOf([o0, o1], presence, messages), Some(v))
         == [Report(Code("alternatives", "types"), Lookup(messages, Code("alternatives", "types")))]
  {
    var opts := [o0, o1];
    var failures := Attempts(b, data, opts, Some(v));
    assert failures[0] == [r0] && failures[1] == [r1];
    var tail := failures[1..];
    assert tail[0] == [r1] && tail[1..] == [];
    assert Complex(tail) == [];
    assert Complex(failures) == [];
  }

  lemma UnmatchedNonEmpty(failures: seq<seq<Report>>, messages: seq<Custom>)
    requires forall i :: 0 <= i < |failures| ==> failures[i] != []
    ensures Unmatched(failures, messages) != []
  {
  }
}
