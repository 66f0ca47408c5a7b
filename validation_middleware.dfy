/** `src/validation/validation.middleware.js`: `validateSchema`, which
    validates the merged request data against a schema; `sanitizeInput`,
    which trims the body's strings in place; and `validateContentType`. */
module ValidationMiddleware {
  import opened Wrappers
  import opened JsString
  import opened Json
  import opened Errors
  import opened Joi
  import opened Http

  /** The body's entries with their keys trimmed, in the body's order. */
  function TrimmedKeys(body: Record): (es: seq<Entry>)
    ensures |es| == |body|
    ensures forall i :: 0 <= i < |body| ==> es[i] == Entry(Trim(body[i].key), body[i].value)
  {
    seq(|body|, i requires 0 <= i < |body| => Entry(Trim(body[i].key), body[i].value))
  }

  /** `cleanedBody`: each body value copied under its trimmed key, in order. */
  function CleanedBody(body: Record): (r: Record)
    ensures DistinctKeys(r)
  {
    PutAll([], TrimmedKeys(body))
  }

  /** `{...cleanedBody, ...req.params, ...req.query}`: the query wins over the
      parameters, and both win over the body. */
  function MergedData(body: Record, params: Record, query: Record): (data: Record)
    requires DistinctKeys(params) && DistinctKeys(query)
    ensures DistinctKeys(data)
    ensures forall k ::
              Get(data, k) ==
                if HasKey(query, k) then Get(query, k)
                else if HasKey(params, k) then Get(params, k)
                else Get(CleanedBody(body), k)
  {
    Spread(Spread(CleanedBody(body), params), query)
  }

  /** What `validateSchema(schema)` does with a request: every violation of the
      merged data, or `next()`. */
  function ValidateSchemaSpec(b: Builtins, schema: ObjectSchema, body: Record, params: Record, query: Record): Outcome
    requires DistinctKeys(params) && DistinctKeys(query)
  {
    var details := Validate(b, schema, MergedData(body, params, query));
    if details == [] then Next else Stop(ValidationFailed(details))
  }

  /** `validateSchema(schema)(req, res, next)`. It reads the request and writes nothing back. */
  method ValidateSchema(b: Builtins, schema: ObjectSchema, req: Request) returns (out: Outcome)
    requires req.Valid()
    ensures out == ValidateSchemaSpec(b, schema, req.body, req.params, req.query)
  {
    var cleaned: Record := [];
    var i := 0;
    while i < |req.body|
      invariant 0 <= i <= |req.body|
      invariant cleaned == PutAll([], TrimmedKeys(req.body)[..i])
    {
      var cleanKey := Trim(req.body[i].key);
      assert TrimmedKeys(req.body)[..i + 1][..i] == TrimmedKeys(req.body)[..i];
      cleaned := Put(cleaned, cleanKey, req.body[i].value);
      i := i + 1;
    }
    assert TrimmedKeys(req.body)[..i] == TrimmedKeys(req.body);
    var data := Spread(Spread(cleaned, req.params), req.query);
    var details := Validate(b, schema, data);
    if details != [] {
      return Stop(ValidationFailed(details));
    }
    return Next;
  }

  /** The cleaned body has exactly the trimmed keys of the body, and each holds
      the value of the last body key that trims to it. */
  lemma CleanedBodyHolds(body: Record, k: string)
    ensures Get(CleanedBody(body), k).Some? <==> exists i :: 0 <= i < |body| && Trim(body[i].key) == k
    ensures forall i :: 0 <= i < |body| && Trim(body[i].key) == k && (forall j :: i < j < |body| ==> Trim(body[j].key) != k) ==>
      Get(CleanedBody(body), k) == Some(body[i].value)
  {
    CleanedBodyHas(body, k);
    forall i | 0 <= i < |body| && Trim(body[i].key) == k && (forall j :: i < j < |body| ==> Trim(body[j].key) != k)
      ensures Get(CleanedBody(body), k) == Some(body[i].value)
    {
      CleanedBodyLast(body, k, i);
    }
  }

  lemma CleanedBodyHas(body: Record, k: string)
    ensures Get(CleanedBody(body), k).Some? <==> exists i :: 0 <= i < |body| && Trim(body[i].key) == k
  {
    var es := TrimmedKeys(body);
    assert Get(CleanedBody(body), k) == Last(es, k);
    if exists i :: 0 <= i < |body| && Trim(body[i].key) == k {
      var i :| 0 <= i < |body| && Trim(body[i].key) == k;
      assert Keys(es)[i] == k;
    }
    if Get(CleanedBody(body), k).Some? {
      var i :| 0 <= i < |es| && Keys(es)[i] == k;
      assert Trim(body[i].key) == k;
    }
  }

  lemma CleanedBodyLast(body: Record, k: string, i: nat)
    requires i < |body| && Trim(body[i].key) == k
    requires forall j :: i < j < |body| ==> Trim(body[j].key) != k
    ensures Get(CleanedBody(body), k) == Some(body[i].value)
  {
    var es := TrimmedKeys(body);
    assert Get(CleanedBody(body), k) == Last(es, k);
    LastAt(es, k, i);
  }

  /** A body whose keys are already trimmed reads the same after cleaning. */
  lemma CleanedTrimmedBody(body: Record, k: string)
    requires DistinctKeys(body)
    requires forall i :: 0 <= i < |body| ==> Trimmed(body[i].key)
    ensures Get(CleanedBody(body), k) == Get(body, k)
  {
    var es := TrimmedKeys(body);
    forall i | 0 <= i < |body| ensures es[i] == body[i] {
      TrimOfTrimmed(body[i].key);
    }
    assert es == body;
    LastOfDistinct(body, k);
  }

  /** `out` answers the request with a failure that lists `d`. */
  predicate Reported(out: Outcome, d: Detail) {
    out.Stop? && out.failure.ValidationFailed? && d in out.failure.details
  }

  /** Every violation is reported: each error of a declared key of the merged
      data, and each undeclared key unless the schema allows them. */
  lemma ValidateSchemaCollectsAll(b: Builtins, schema: ObjectSchema, body: Record, params: Record, query: Record)
    requires DistinctKeys(params) && DistinctKeys(query)
    ensures var data := MergedData(body, params, query);
      forall i, j :: 0 <= i < |schema.keys| && 0 <= j < |KeyReports(b, data, schema.keys[i].schema, Get(data, schema.keys[i].name))| ==>
        var r := KeyReports(b, data, schema.keys[i].schema, Get(data, schema.keys[i].name))[j];
        Reported(ValidateSchemaSpec(b, schema, body, params, query), Detail(schema.keys[i].name, r.code, r.custom))
    ensures var data := MergedData(body, params, query);
      !schema.allowUnknown ==> forall i :: 0 <= i < |data| && data[i].key !in Names(schema.keys) ==>
        Reported(ValidateSchemaSpec(b, schema, body, params, query), Detail(data[i].key, Code("object", "unknown"), None))
  {
    var data := MergedData(body, params, query);
    var out := ValidateSchemaSpec(b, schema, body, params, query);
    assert forall d :: d in Validate(b, schema, data) ==> Reported(out, d);
    ValidateCollectsAll(b, schema, data);
  }

  /** `result.error.details.map(err => err.message)`: the `errors` list of the
      400 response, empty when the request goes on to `next()`. */
  function ResponseErrors(b: Builtins, out: Outcome): (ms: seq<string>)
    ensures !(out.Stop? && out.failure.ValidationFailed?) ==> ms == []
    ensures out.Stop? && out.failure.ValidationFailed? ==>
      |ms| == |out.failure.details| &&
      forall i :: 0 <= i < |ms| ==> ms[i] == Message(b, out.failure.details[i])
  {
    if out.Stop? && out.failure.ValidationFailed? then
      seq(|out.failure.details|, i requires 0 <= i < |out.failure.details| => Message(b, out.failure.details[i]))
    else []
  }

  /** The 400 response lists one message per violation, so it is empty exactly
      when the request passes; each failing declared key contributes its
      message, which is the schema's own text when the schema gives one. */
  lemma ValidateSchemaMessages(b: Builtins, schema: ObjectSchema, body: Record, params: Record, query: Record)
    requires DistinctKeys(params) && DistinctKeys(query)
    ensures var out := ValidateSchemaSpec(b, schema, body, params, query);
      |ResponseErrors(b, out)| == |Validate(b, schema, MergedData(body, params, query))| &&
      (ResponseErrors(b, out) == [] <==> out == Next)
    ensures var data := MergedData(body, params, query);
      forall i, j :: 0 <= i < |schema.keys| && 0 <= j < |KeyReports(b, data, schema.keys[i].schema, Get(data, schema.keys[i].name))| ==>
        var r := KeyReports(b, data, schema.keys[i].schema, Get(data, schema.keys[i].name))[j];
        (if r.custom.Some? then r.custom.value else b.defaultMessage(r.code, schema.keys[i].name))
          in ResponseErrors(b, ValidateSchemaSpec(b, schema, body, params, query))
  {
    var data := MergedData(body, params, query);
    var out := ValidateSchemaSpec(b, schema, body, params, query);
    ValidateSchemaCollectsAll(b, schema, body, params, query);
    forall i, j | 0 <= i < |schema.keys| && 0 <= j < |KeyReports(b, data, schema.keys[i].schema, Get(data, schema.keys[i].name))|
      ensures var r := KeyReports(b, data, schema.keys[i].schema, Get(data, schema.keys[i].name))[j];
        (if r.custom.Some? then r.custom.value else b.defaultMessage(r.code, schema.keys[i].name)) in ResponseErrors(b, out)
    {
      var r := KeyReports(b, data, schema.keys[i].schema, Get(data, schema.keys[i].name))[j];
      var d := Detail(schema.keys[i].name, r.code, r.custom);
      assert Reported(out, d);
      var k :| 0 <= k < |out.failure.details| && out.failure.details[k] == d;
      assert ResponseErrors(b, out)[k] == Message(b, d);
    }
  }

  /** `sanitizeInput`'s treatment of one value: strings are trimmed, nothing else changes. */
  function TrimValue(v: Value): (w: Value)
    ensures v.Str? <==> w.Str?
    ensures v.Str? ==> w.s == Trim(v.s)
    ensures !v.Str? ==> w == v
  {
    if v.Str? then Str(Trim(v.s)) else v
  }

  /** The body after `sanitizeInput`. */
  function Sanitized(body: Record): (r: Record)
    ensures |r| == |body|
  {
    seq(|body|, i requires 0 <= i < |body| => Entry(body[i].key, TrimValue(body[i].value)))
  }

  /** Sanitizing keeps every key in its place and trims only string values. */
  lemma SanitizedEntries(body: Record)
    ensures Keys(Sanitized(body)) == Keys(body)
    ensures forall k :: Get(Sanitized(body), k) == if HasKey(body, k) then Some(TrimValue(Get(body, k).value)) else None
  {
    var r := Sanitized(body);
    assert Keys(r) == Keys(body);
    forall k ensures Get(r, k) == if HasKey(body, k) then Some(TrimValue(Get(body, k).value)) else None {
      SanitizedGet(body, k);
    }
  }

  lemma {:induction false} SanitizedGet(body: Record, k: string)
    ensures Get(Sanitized(body), k) == if HasKey(body, k) then Some(TrimValue(Get(body, k).value)) else None
    decreases |body|
  {
    if body != [] {
      assert Sanitized(body)[1..] == Sanitized(body[1..]);
      assert Sanitized(body)[0] == Entry(body[0].key, TrimValue(body[0].value));
      SanitizedGet(body[1..], k);
    }
  }

  /** Sanitizing twice is sanitizing once. */
  lemma SanitizeIdempotent(body: Record)
    ensures Sanitized(Sanitized(body)) == Sanitized(body)
  {
    forall i | 0 <= i < |body| ensures TrimValue(TrimValue(body[i].value)) == TrimValue(body[i].value) {
      if body[i].value.Str? {
        TrimIdempotent(body[i].value.s);
      }
    }
  }

  /** The body while `sanitizeInput` runs: the first `i` entries sanitized, the rest as sent. */
  function HalfSanitized(body: Record, i: nat): (r: Record)
    requires i <= |body|
    ensures |r| == |body|
  {
    Sanitized(body)[..i] + body[i..]
  }

  /** Keys stay where they are while the values are sanitized one by one. */
  lemma SanitizedPrefixKeys(body: Record, i: nat)
    requires i <= |body|
    ensures Keys(HalfSanitized(body, i)) == Keys(body)
  {
    var r := HalfSanitized(body, i);
    assert forall j :: 0 <= j < |body| ==> r[j].key == body[j].key;
  }

  /** Sanitizing starts from the body as sent and ends at `Sanitized`, with
      no key repeated on the way. */
  lemma HalfSanitizedEnds(body: Record)
    requires DistinctKeys(body)
    ensures HalfSanitized(body, 0) == body
    ensures HalfSanitized(body, |body|) == Sanitized(body)
    ensures DistinctKeys(Sanitized(body))
  {
    assert Sanitized(body)[..|body|] == Sanitized(body);
    SanitizedPrefixKeys(body, |body|);
  }

  /** One step of `sanitizeInput`: trimming the string at position `i` extends
      the sanitized prefix by one entry. */
  lemma SanitizeStep(body: Record, i: nat)
    requires i < |body| && DistinctKeys(body)
    ensures HalfSanitized(body, i)[i] == body[i] && DistinctKeys(HalfSanitized(body, i))
    ensures body[i].value.Str? ==>
      Put(HalfSanitized(body, i), body[i].key, Str(Trim(body[i].value.s))) == HalfSanitized(body, i + 1)
    ensures !body[i].value.Str? ==> HalfSanitized(body, i) == HalfSanitized(body, i + 1)
  {
    HalfSanitizedDistinct(body, i);
    SanitizedPrefixNext(body, i);
    if body[i].value.Str? {
      PutAt(HalfSanitized(body, i), i, Str(Trim(body[i].value.s)));
    } else {
      HalfSanitizedSkip(body, i);
    }
  }

  lemma HalfSanitizedDistinct(body: Record, i: nat)
    requires i <= |body| && DistinctKeys(body)
    ensures DistinctKeys(HalfSanitized(body, i))
  {
    SanitizedPrefixKeys(body, i);
  }

  /** A value that is not a string is left as it is. */
  lemma HalfSanitizedSkip(body: Record, i: nat)
    requires i < |body| && !body[i].value.Str?
    ensures HalfSanitized(body, i) == HalfSanitized(body, i + 1)
  {
    var cur := HalfSanitized(body, i);
    var next := HalfSanitized(body, i + 1);
    assert forall j :: 0 <= j < |cur| ==> next[j] == cur[j];
  }

  lemma SanitizedPrefixNext(body: Record, i: nat)
    requires i < |body|
    ensures var cur := HalfSanitized(body, i);
      HalfSanitized(body, i + 1) == cur[..i] + [Entry(body[i].key, TrimValue(body[i].value))] + cur[i + 1..]
  {
    var cur := HalfSanitized(body, i);
    assert cur[..i] == Sanitized(body)[..i];
    assert cur[i + 1..] == body[i + 1..];
    assert Sanitized(body)[..i + 1] == Sanitized(body)[..i] + [Sanitized(body)[i]];
  }

  /** `sanitizeInput(req, res, next)`: trims every string value of `req.body`
      in place, then calls `next()`. */
  method SanitizeInput(req: Request) returns (out: Outcome)
    requires req.Valid()
    modifies req`body
    ensures req.body == Sanitized(old(req.body)) && req.Valid() && out == Next
  {
    ghost var body0 := req.body;
    HalfSanitizedEnds(body0);
    var i := 0;
    while i < |req.body|
      invariant 0 <= i <= |body0| && DistinctKeys(body0)
      invariant req.body == HalfSanitized(body0, i)
    {
      SanitizeStep(body0, i);
      var key := req.body[i].key;
      var value := req.body[i].value;
      if value.Str? {
        req.body := Put(req.body, key, Str(Trim(value.s)));
      }
      i := i + 1;
    }
    return Next;
  }

  /** `validateContentType`: only a POST whose body is not JSON is refused. */
  function ValidateContentType(httpMethod: string, isJson: bool): (out: Outcome)
    ensures out == Next || out == Stop(ContentTypeNotJson)
    ensures out.Stop? <==> httpMethod == "POST" && !isJson
  {
    if httpMethod == "POST" && !isJson then Stop(ContentTypeNotJson) else Next
  }
}
