/** Request-body validation (`RequestDataValidation`). For PUT, POST and PATCH
    the `data` payload must be present and non-empty; its `id` entry is
    dropped; every key and value is trimmed and sanitised and the key
    lower-cased; every key of the resulting array is checked against the field
    catalog, all unknown keys being reported together; then every entry is
    validated against its rule, the first failure deciding. */
module DataValidation {
  import opened Wrappers
  import opened Seqs
  import opened Php
  import opened Fields
  import opened Rules
  import opened Exceptions
  import opened Http
  import opened Validator

  /** `strtolower(filter_var(trim($field), FILTER_SANITIZE_STRING))`. */
  function NormalizeKey(k: string, lib: Library): string {
    ToLower(lib.sanitize(Trim(k)))
  }

  /** `filter_var(trim($value), FILTER_SANITIZE_STRING)`. */
  function CleanValue(v: string, lib: Library): string {
    lib.sanitize(Trim(v))
  }

  /** Each entry of `pending` with its key normalised and its value cleaned,
      in order: what the sanitising `foreach` of `__invoke` assigns, entry by
      entry. */
  function Cleaned(pending: Entries, lib: Library): (c: Entries)
    ensures |c| == |pending|
    ensures forall i :: 0 <= i < |pending| ==>
              c[i] == (NormalizeKey(pending[i].0, lib), CleanValue(pending[i].1, lib))
    decreases |pending|
  {
    if pending == [] then []
    else [(NormalizeKey(pending[0].0, lib), CleanValue(pending[0].1, lib))] + Cleaned(pending[1..], lib)
  }

  /** Reference definition: the value of the last entry of `c` with key `x`. */
  function LastValue(c: Entries, x: string): Option<string>
    decreases |c|
  {
    if c == [] then None
    else
      var later := LastValue(c[1..], x);
      if later.Some? then later
      else if c[0].0 == x then Some(c[0].1)
      else None
  }

  /** The assignments of the loop, in order, into `data`; a falsy key stops
      the loop with an invalid-parameter error naming it. */
  function Assign(c: Entries, data: Fields): (r: Result<Fields, Exc>)
    ensures r.Err? ==> r.error.kind == ParameterInvalid && r.error.code == BadRequest
    decreases |c|
  {
    if c == [] then Ok(data)
    else if Falsy(c[0].0) then Err(NewInvalidParameter(c[0].0, 0))
    else Assign(c[1..], Put(data, c[0].0, c[0].1))
  }

  /** The loop runs to the end exactly when no key is falsy. */
  lemma {:induction false} AssignOkIff(c: Entries, data: Fields)
    ensures Assign(c, data).Ok? <==> forall i :: 0 <= i < |c| ==> !Falsy(c[i].0)
    decreases |c|
  {
    if c != [] && !Falsy(c[0].0) {
      AssignOkIff(c[1..], Put(data, c[0].0, c[0].1));
      assert forall i :: 0 < i < |c| ==> c[i] == c[1..][i - 1];
    }
  }

  /** The key is not falsy: the loop may assign it. */
  const Assignable: ((string, string)) -> bool := (e: (string, string)) => !Falsy(e.0)

  /** A failing loop names the first falsy key, and no other. */
  lemma {:induction false} AssignError(c: Entries, data: Fields)
    requires Assign(c, data).Err?
    ensures FirstFailure(c, Assignable) < |c|
    ensures Assign(c, data).error == NewInvalidParameter(c[FirstFailure(c, Assignable)].0, 0)
    decreases |c|
  {
    if !Falsy(c[0].0) {
      assert Assignable(c[0]);
      AssignError(c[1..], Put(data, c[0].0, c[0].1));
      assert c[FirstFailure(c, Assignable)] == c[1..][FirstFailure(c[1..], Assignable)];
    }
  }

  /** The keys afterwards: the keys `data` started with, in place, followed by
      each new key at its first occurrence. No key is ever removed. */
  lemma {:induction false} AssignKeys(c: Entries, data: Fields)
    requires Assign(c, data).Ok?
    ensures KeysOf(Assign(c, data).value) == AppendNew(KeysOf(data), KeysOf(c))
    decreases |c|
  {
    if c != [] {
      AssignKeys(c[1..], Put(data, c[0].0, c[0].1));
      assert KeysOf(c)[1..] == KeysOf(c[1..]);
    }
  }

  /** The values afterwards: under a key of `c`, the value of its last entry;
      under any other key, what was there. */
  lemma {:induction false} AssignValues(c: Entries, data: Fields, x: string)
    requires Assign(c, data).Ok?
    ensures LastValue(c, x).Some? ==> Lookup(Assign(c, data).value, x) == LastValue(c, x)
    ensures LastValue(c, x).None? ==> Lookup(Assign(c, data).value, x) == Lookup(data, x)
    decreases |c|
  {
    if c != [] {
      AssignValues(c[1..], Put(data, c[0].0, c[0].1), x);
    }
  }

  /** The sanitising `foreach` of `__invoke`: iterates over a snapshot of
      the entries and writes each cleaned value under its normalised key,
      without unsetting the raw key. */
  function Sanitize(pending: Entries, data: Fields, lib: Library): Result<Fields, Exc> {
    Assign(Cleaned(pending, lib), data)
  }

  /** The keys that name no catalog field, in iteration order. */
  function UnknownFields(keys: seq<string>, schema: Schema): (r: seq<string>)
    ensures forall x :: x in r <==> x in keys && !IsValidParameterName(schema, x)
    ensures Subsequence(r, keys)
    decreases |keys|
  {
    if keys == [] then []
    else if IsValidParameterName(schema, keys[0]) then
      var r := UnknownFields(keys[1..], schema);
      assert r == [] || r[0] != keys[0];
      r
    else [keys[0]] + UnknownFields(keys[1..], schema)
  }

  /** The entry has a rule and its value passes it. */
  predicate FieldPasses(e: (string, string), lib: Library) {
    RuleFor(Validators, e.0).Some? && Passes(RuleFor(Validators, e.0).value, e.1, lib.holds)
  }

  /** What validating a failing entry throws: the configuration error when the
      field has no rule, else the refusal of the first link its value fails. */
  function FieldFailure(field: string, value: string, lib: Library): (e: Exc)
    requires !FieldPasses((field, value), lib)
    ensures e.kind == Runtime <==> RuleFor(Validators, field).None?
    ensures e.kind == Runtime ==> e == NewRuntime(field)
    ensures e.kind != Runtime ==>
              var refused := FirstRefusal(RuleFor(Validators, field).value, value, lib.holds);
              refused.Some? && e == Refusal(field, refused.value, value, lib)
  {
    match RuleFor(Validators, field)
    case None => NewRuntime(field)
    case Some(rule) =>
      FirstRefusalSpec(rule, value, lib.holds);
      Refusal(field, FirstRefusal(rule, value, lib.holds).value, value, lib)
  }

  /** One step of the validation loop: `validateParam` succeeds on an entry
      exactly when the entry passes, and otherwise throws its failure. */
  lemma ValidateParamStep(field: string, value: string, lib: Library)
    ensures ValidateParam(value, field, true, lib).Ok? <==> FieldPasses((field, value), lib)
    ensures ValidateParam(value, field, true, lib).Err? ==>
              ValidateParam(value, field, true, lib).error == FieldFailure(field, value, lib)
  {
  }

  /** The validation `foreach` at the end of the `try` block: `validateParam`
      in exception mode on each entry in order; the first failure is thrown. */
  function ValidateFields(data: Entries, lib: Library): (r: Option<Exc>)
    ensures r.Some? ==> r.value.kind in {Validation, Runtime} && (r.value.kind == Runtime ==> r.value.code == 0)
    decreases |data|
  {
    if data == [] then None
    else
      ValidateParamStep(data[0].0, data[0].1, lib);
      match ValidateParam(data[0].1, data[0].0, true, lib)
      case Err(e) => Some(e)
      case Ok(_) => ValidateFields(data[1..], lib)
  }

  /** The validation loop runs to the end exactly when every entry passes. */
  lemma {:induction false} ValidateFieldsPassIff(data: Entries, lib: Library)
    ensures ValidateFields(data, lib).None? <==> forall i :: 0 <= i < |data| ==> FieldPasses(data[i], lib)
    decreases |data|
  {
    if data != [] {
      ValidateParamStep(data[0].0, data[0].1, lib);
      ValidateFieldsPassIff(data[1..], lib);
      assert forall i :: 0 < i < |data| ==> data[i] == data[1..][i - 1];
    }
  }

  /** `FieldPasses` for the entries of a payload checked with `lib`. */
  function PassesWith(lib: Library): ((string, string)) -> bool {
    (e: (string, string)) => FieldPasses(e, lib)
  }

  /** A failing validation loop throws for the first failing entry, and no other. */
  lemma {:induction false} ValidateFieldsFailure(data: Entries, lib: Library)
    requires ValidateFields(data, lib).Some?
    ensures FirstFailure(data, PassesWith(lib)) < |data|
    ensures !FieldPasses(data[FirstFailure(data, PassesWith(lib))], lib)
    ensures var e := data[FirstFailure(data, PassesWith(lib))];
            ValidateFields(data, lib).value == FieldFailure(e.0, e.1, lib)
    decreases |data|
  {
    if FieldPasses(data[0], lib) {
      assert PassesWith(lib)(data[0]);
      ValidateFieldsFailure(data[1..], lib);
      assert data[FirstFailure(data, PassesWith(lib))] == data[1..][FirstFailure(data[1..], PassesWith(lib))];
    }
  }

  /** The payload once `id` is dropped. */
  function Stripped(data: Fields): Fields {
    Remove(data, "id")
  }

  /** Only the exact key `id` is dropped: every other raw key, `ID` and ` id `
      included, goes on to be sanitised and checked. */
  lemma OnlyExactIdDropped(d: Fields, k: string)
    ensures k in KeysOf(Stripped(d)) <==> k in KeysOf(d) && k != "id"
  {
    assert k !in ["id"] <==> k != "id";
  }

  /** The checks of the `try` block of `__invoke` on the `data` parameter: the cleaned
      array when every check passes, else the exception thrown. */
  function CheckData(data: Option<Fields>, schema: Schema, lib: Library): (r: Result<Fields, Exc>)
    ensures data.None? || |data.value| == 0 ==> r == Err(NewException(ParameterMissing, "data", lib.classes))
    ensures r.Ok? ==> data.Some? && |data.value| > 0
    ensures r.Ok? ==> forall i :: 0 <= i < |r.value| ==> IsValidParameterName(schema, r.value[i].0)
    ensures r.Ok? ==> forall i :: 0 <= i < |r.value| ==> FieldPasses(r.value[i], lib)
    ensures r.Err? ==> r.error.kind in {ParameterMissing, ParameterInvalid, ParameterUnknown, Validation, Runtime}
    ensures r.Err? && r.error.kind == Runtime ==> r.error.code == 0
  {
    if data.None? || |data.value| == 0 then Err(NewException(ParameterMissing, "data", lib.classes))
    else
      var requestData := Stripped(data.value);
      match Sanitize(requestData, requestData, lib)
      case Err(e) => Err(e)
      case Ok(clean) =>
        var unknown := UnknownFields(KeysOf(clean), schema);
        if |unknown| > 0 then Err(NewException(ParameterUnknown, Join(unknown), lib.classes))
        else
          assert forall i :: 0 <= i < |clean| ==> KeysOf(clean)[i] !in unknown;
          ValidateFieldsPassIff(clean, lib);
          match ValidateFields(clean, lib)
          case Some(e) => Err(e)
          case None => Ok(clean)
  }

  /** `RequestDataValidation::__invoke`. The cleaned array is not handed on:
      the next handler receives the request as it came. */
  function Invoke(req: Request, schema: Schema, lib: Library): (r: Outcome)
    ensures !CarriesData(req.verb) ==> r == Next
    ensures CarriesData(req.verb) && (req.data.None? || |req.data.value| == 0) ==>
              var e := NewException(ParameterMissing, "data", lib.classes);
              r == Respond(e, CodeOr(e, BadRequest))
    ensures CarriesData(req.verb) ==> (r.Next? <==> CheckData(req.data, schema, lib).Ok?)
    ensures CarriesData(req.verb) && CheckData(req.data, schema, lib).Err? ==>
              var e := CheckData(req.data, schema, lib).error;
              r == if e.kind == Runtime then Uncaught(e) else Respond(e, CodeOr(e, BadRequest))
    ensures r.Uncaught? ==> CarriesData(req.verb) && r.error.kind == Runtime && r.error.code == 0
  {
    if !CarriesData(req.verb) then Next
    else match CheckData(req.data, schema, lib)
      case Ok(_) => Next
      case Err(e) =>
        if e.kind == Runtime then Uncaught(e)
        else Respond(e, CodeOr(e, BadRequest))
  }

  /** The keys the catalog check reads: the payload's own keys (`id` aside),
      then every normalised key, each at its first occurrence. */
  function CheckedKeys(d: Fields, lib: Library): seq<string> {
    Firsts(KeysOf(Stripped(d)) + KeysOf(Cleaned(Stripped(d), lib)))
  }

  /** Once every key sanitises, the cleaned array holds exactly the checked
      keys: the raw keys are never unset. */
  lemma SanitizedKeys(d: Fields, lib: Library)
    requires Sanitize(Stripped(d), Stripped(d), lib).Ok?
    ensures KeysOf(Sanitize(Stripped(d), Stripped(d), lib).value) == CheckedKeys(d, lib)
  {
    AssignKeys(Cleaned(Stripped(d), lib), Stripped(d));
    AppendNewFromDistinct(KeysOf(Stripped(d)), KeysOf(Cleaned(Stripped(d), lib)));
  }

  /** A key that normalises to a falsy string is rejected with status 400,
      naming the first such normalised key. */
  lemma InvalidKeyRejected(req: Request, schema: Schema, lib: Library)
    requires CarriesData(req.verb) && req.data.Some? && |req.data.value| > 0
    requires Sanitize(Stripped(req.data.value), Stripped(req.data.value), lib).Err?
    ensures var c := Cleaned(Stripped(req.data.value), lib);
            FirstFailure(c, Assignable) < |c| &&
            Invoke(req, schema, lib) == Reject(NewInvalidParameter(c[FirstFailure(c, Assignable)].0, 0).message, BadRequest)
  {
    var s := Stripped(req.data.value);
    AssignError(Cleaned(s, lib), s);
  }

  /** The distinct keys of `keys` that name no catalog field, in order of
      first appearance. */
  function UnknownOf(keys: seq<string>, schema: Schema): (u: seq<string>)
    ensures forall x :: x in u <==> x in keys && !IsValidParameterName(schema, x)
    ensures NoDuplicates(u)
  {
    FirstsMembers(keys);
    FirstsDistinct(keys);
    SubsequenceKeepsDistinct(UnknownFields(Firsts(keys), schema), Firsts(keys));
    UnknownFields(Firsts(keys), schema)
  }

  /** The keys the catalog does not know: exactly the raw or normalised keys
      that name no catalog field, each once. */
  function Unknown(d: Fields, schema: Schema, lib: Library): (u: seq<string>)
    ensures forall x :: x in u <==>
              (x in KeysOf(Stripped(d)) || x in KeysOf(Cleaned(Stripped(d), lib))) && !IsValidParameterName(schema, x)
    ensures NoDuplicates(u)
  {
    var raw := KeysOf(Stripped(d));
    var normalised := KeysOf(Cleaned(Stripped(d), lib));
    assert forall x :: x in raw + normalised <==> x in raw || x in normalised;
    UnknownOf(raw + normalised, schema)
  }

  /** Unknown keys are reported all at once, in one exception whose argument
      lists them comma-joined. */
  lemma UnknownReportedTogether(d: Fields, schema: Schema, lib: Library)
    requires |d| > 0
    requires Sanitize(Stripped(d), Stripped(d), lib).Ok?
    requires |Unknown(d, schema, lib)| > 0
    ensures CheckData(Some(d), schema, lib) == Err(NewException(ParameterUnknown, Join(Unknown(d, schema, lib)), lib.classes))
  {
    SanitizedKeys(d, lib);
  }

  /** When no unknown key holds a comma, the joined list reads back intact:
      the exception names every unknown key. */
  lemma UnknownListReadsBack(d: Fields, schema: Schema, lib: Library)
    requires |Unknown(d, schema, lib)| > 0
    requires forall k :: 0 <= k < |Unknown(d, schema, lib)| ==> ',' !in Unknown(d, schema, lib)[k]
    ensures Split(Join(Unknown(d, schema, lib))) == Unknown(d, schema, lib)
  {
    SplitJoin(Unknown(d, schema, lib));
  }

  /** A raw key other than `id` that names no catalog field is among the
      unknown keys, whatever it normalises to. */
  lemma RawKeyUnknown(d: Fields, schema: Schema, lib: Library, k: string)
    requires k in KeysOf(d) && k != "id" && !IsValidParameterName(schema, k)
    ensures k in Unknown(d, schema, lib)
  {
    assert k !in ["id"];
    assert k in KeysOf(Stripped(d));
  }

  /** The raw keys are checked too: a key other than `id` that names no
      catalog field is reported unknown even when it normalises to one
      (` Name ` or `NAME` for `name`). */
  lemma RawKeyChecked(d: Fields, schema: Schema, lib: Library, k: string)
    requires |d| > 0 && k in KeysOf(d) && k != "id" && !IsValidParameterName(schema, k)
    requires Sanitize(Stripped(d), Stripped(d), lib).Ok?
    ensures CheckData(Some(d), schema, lib).Err?
    ensures CheckData(Some(d), schema, lib).error.kind == ParameterUnknown
  {
    RawKeyUnknown(d, schema, lib, k);
    UnknownReportedTogether(d, schema, lib);
  }

  /** A payload holding only `id` is accepted without any check. */
  lemma OnlyIdAccepted(req: Request, v: string, schema: Schema, lib: Library)
    requires CarriesData(req.verb) && req.data == Some([("id", v)])
    ensures Invoke(req, schema, lib) == Next
  {
    var d: Fields := [("id", v)];
    assert KeysOf(d) == ["id"];
    assert KeysOf(Stripped(d)) == [];
  }

  /** The value under `id` plays no part: non-empty payloads that agree once
      `id` is dropped get the same answer. (An empty payload is refused as
      missing, while one holding only `id` passes; see `OnlyIdAccepted`.) */
  lemma IdValueIgnored(req: Request, other: Fields, schema: Schema, lib: Library)
    requires req.data.Some? && |req.data.value| > 0 && |other| > 0
    requires Stripped(req.data.value) == Stripped(other)
    ensures Invoke(req, schema, lib) == Invoke(req.(data := Some(other)), schema, lib)
  {
    assert CheckData(req.data, schema, lib) == CheckData(Some(other), schema, lib);
  }

  /** An accepted payload is handed back as the sanitiser left it, holding
      exactly the checked keys. */
  lemma AcceptedIsSanitized(d: Fields, schema: Schema, lib: Library)
    requires CheckData(Some(d), schema, lib).Ok?
    ensures Sanitize(Stripped(d), Stripped(d), lib).Ok?
    ensures CheckData(Some(d), schema, lib).value == Sanitize(Stripped(d), Stripped(d), lib).value
    ensures KeysOf(CheckData(Some(d), schema, lib).value) == CheckedKeys(d, lib)
  {
    var s := Stripped(d);
    assert Sanitize(s, s, lib).Ok? && CheckData(Some(d), schema, lib) == Ok(Sanitize(s, s, lib).value);
    SanitizedKeys(d, lib);
  }

  lemma KeyNamesField(m: Entries, schema: Schema, x: string)
    requires forall i :: 0 <= i < |m| ==> IsValidParameterName(schema, m[i].0)
    requires x in KeysOf(m)
    ensures IsValidParameterName(schema, x)
  {
    var i := FirstIndex(KeysOf(m), x);
    assert m[i].0 == x;
  }

  /** An accepted payload names only catalog fields: every raw key but `id`
      and every normalised key. */
  lemma AcceptedKeys(d: Fields, schema: Schema, lib: Library)
    requires CheckData(Some(d), schema, lib).Ok?
    ensures forall k :: k in KeysOf(d) && k != "id" ==> IsValidParameterName(schema, k)
    ensures forall x :: x in KeysOf(Cleaned(Stripped(d), lib)) ==> IsValidParameterName(schema, x)
  {
    var s := Stripped(d);
    var c := Cleaned(s, lib);
    var clean := CheckData(Some(d), schema, lib).value;
    AcceptedIsSanitized(d, schema, lib);
    FirstsMembers(KeysOf(s) + KeysOf(c));
    assert forall x :: x in KeysOf(s) + KeysOf(c) <==> x in KeysOf(s) || x in KeysOf(c);
    forall x | x in KeysOf(s) || x in KeysOf(c)
      ensures IsValidParameterName(schema, x)
    {
      KeyNamesField(clean, schema, x);
    }
    forall k | k in KeysOf(d) && k != "id"
      ensures IsValidParameterName(schema, k)
    {
      OnlyExactIdDropped(d, k);
    }
  }

  /** In an accepted payload, the cleaned value of the last entry of each
      normalised key passes that field's rule. */
  lemma AcceptedValues(d: Fields, schema: Schema, lib: Library)
    requires CheckData(Some(d), schema, lib).Ok?
    ensures forall x :: LastValue(Cleaned(Stripped(d), lib), x).Some? ==>
              FieldPasses((x, LastValue(Cleaned(Stripped(d), lib), x).value), lib)
  {
    var s := Stripped(d);
    var c := Cleaned(s, lib);
    var clean := CheckData(Some(d), schema, lib).value;
    AcceptedIsSanitized(d, schema, lib);
    forall x | LastValue(c, x).Some?
      ensures FieldPasses((x, LastValue(c, x).value), lib)
    {
      AssignValues(c, s, x);
      var e := (x, LastValue(c, x).value);
      assert e in clean;
      var i :| 0 <= i < |clean| && clean[i] == e;
    }
  }

  /** Reference definition of the value the validation loop sees under key
      `k`: the cleaned value of the last entry normalising to `k`, else the
      value left in place under the raw key. */
  function FinalValue(d: Fields, k: string, lib: Library): Option<string> {
    var later := LastValue(Cleaned(Stripped(d), lib), k);
    if later.Some? then later else Lookup(Stripped(d), k)
  }

  /** Reference definition of an accepted payload: it is non-empty, no key
      normalises to a falsy string, every raw key but `id` and every
      normalised key names a catalog field, and every value the validation
      loop sees passes its field's rule. */
  ghost predicate Accepted(d: Fields, schema: Schema, lib: Library) {
    var s := Stripped(d);
    var c := Cleaned(s, lib);
    && |d| > 0
    && (forall i :: 0 <= i < |c| ==> !Falsy(c[i].0))
    && (forall k :: k in KeysOf(s) ==> IsValidParameterName(schema, k))
    && (forall k :: k in KeysOf(c) ==> IsValidParameterName(schema, k))
    && FinalPasses(d, lib)
  }

  /** Every value the validation loop sees passes its field's rule. */
  ghost predicate FinalPasses(d: Fields, lib: Library) {
    forall k :: FinalValue(d, k, lib).Some? ==> FieldPasses((k, FinalValue(d, k, lib).value), lib)
  }

  /** In an array with distinct keys, looking up an entry's key finds its value. */
  lemma {:induction false} LookupAt(m: Entries, i: nat)
    requires NoDuplicates(KeysOf(m)) && i < |m|
    ensures Lookup(m, m[i].0) == Some(m[i].1)
    decreases |m|
  {
    if i > 0 {
      assert KeysOf(m)[0] == m[0].0 && KeysOf(m)[i] == m[i].0;
      assert KeysOf(m[1..]) == KeysOf(m)[1..];
      LookupAt(m[1..], i - 1);
    }
  }

  /** Every entry satisfies `ok`. */
  predicate AllEntries(m: Entries, ok: ((string, string)) -> bool) {
    forall i :: 0 <= i < |m| ==> ok(m[i])
  }

  /** The value found under every key satisfies `ok`. */
  ghost predicate AllFound(m: Entries, ok: ((string, string)) -> bool) {
    forall k :: Lookup(m, k).Some? ==> ok((k, Lookup(m, k).value))
  }

  /** In an array with distinct keys, every entry satisfies `ok` exactly when
      the value found under every key does. */
  lemma {:induction false} EntriesAllIff(m: Entries, ok: ((string, string)) -> bool)
    requires NoDuplicates(KeysOf(m))
    ensures AllEntries(m, ok) <==> AllFound(m, ok)
  {
    if AllEntries(m, ok) {
      EntriesAllFound(m, ok);
    } else if AllFound(m, ok) {
      FoundAllEntries(m, ok);
    }
  }

  lemma {:induction false} EntriesAllFound(m: Entries, ok: ((string, string)) -> bool)
    requires AllEntries(m, ok)
    ensures AllFound(m, ok)
  {
    forall k | Lookup(m, k).Some?
      ensures ok((k, Lookup(m, k).value))
    {
      var e := (k, Lookup(m, k).value);
      assert e in m;
      var i :| 0 <= i < |m| && m[i] == e;
    }
  }

  lemma {:induction false} FoundAllEntries(m: Entries, ok: ((string, string)) -> bool)
    requires NoDuplicates(KeysOf(m))
    requires AllFound(m, ok)
    ensures AllEntries(m, ok)
  {
    forall i | 0 <= i < |m| ensures ok(m[i]) {
      LookupAt(m, i);
    }
  }

  /** Once every key sanitises, the validation loop finds no failure exactly
      when every reference value passes. */
  lemma {:induction false} SanitizedPasses(d: Fields, lib: Library)
    requires Sanitize(Stripped(d), Stripped(d), lib).Ok?
    ensures ValidateFields(Sanitize(Stripped(d), Stripped(d), lib).value, lib).None? <==> FinalPasses(d, lib)
  {
    var clean := Sanitize(Stripped(d), Stripped(d), lib).value;
    forall k ensures Lookup(clean, k) == FinalValue(d, k, lib) {
      AssignValues(Cleaned(Stripped(d), lib), Stripped(d), k);
    }
    EntriesAllIff(clean, PassesWith(lib));
    ValidateFieldsPassIff(clean, lib);
    assert AllEntries(clean, PassesWith(lib)) <==> forall i :: 0 <= i < |clean| ==> FieldPasses(clean[i], lib);
    assert AllFound(clean, PassesWith(lib)) <==> FinalPasses(d, lib);
  }

  /** Once every key sanitises, the catalog check finds nothing unknown
      exactly when every raw and normalised key names a catalog field. */
  lemma KnownIff(d: Fields, schema: Schema, lib: Library)
    requires Sanitize(Stripped(d), Stripped(d), lib).Ok?
    ensures UnknownFields(KeysOf(Sanitize(Stripped(d), Stripped(d), lib).value), schema) == Unknown(d, schema, lib)
    ensures |Unknown(d, schema, lib)| == 0 <==>
              (forall k :: k in KeysOf(Stripped(d)) ==> IsValidParameterName(schema, k)) &&
              (forall k :: k in KeysOf(Cleaned(Stripped(d), lib)) ==> IsValidParameterName(schema, k))
  {
    SanitizedKeys(d, lib);
    var u := Unknown(d, schema, lib);
    if |u| > 0 {
      assert u[0] in u;
    }
  }

  /** Once every key sanitises, `CheckData` accepts exactly when every key
      names a catalog field and every value the validation loop sees passes. */
  lemma {:induction false} AcceptedOnceSanitized(d: Fields, schema: Schema, lib: Library)
    requires |d| > 0
    requires Sanitize(Stripped(d), Stripped(d), lib).Ok?
    ensures CheckData(Some(d), schema, lib).Ok? <==>
              (forall k :: k in KeysOf(Stripped(d)) ==> IsValidParameterName(schema, k)) &&
              (forall k :: k in KeysOf(Cleaned(Stripped(d), lib)) ==> IsValidParameterName(schema, k)) &&
              FinalPasses(d, lib)
  {
    var clean := Sanitize(Stripped(d), Stripped(d), lib).value;
    KnownIff(d, schema, lib);
    SanitizedPasses(d, lib);
    assert CheckData(Some(d), schema, lib).Ok? <==>
           |Unknown(d, schema, lib)| == 0 && ValidateFields(clean, lib).None?;
  }

  /** `CheckData` accepts a payload exactly when the reference definition does. */
  lemma {:induction false} CheckDataAccepts(d: Fields, schema: Schema, lib: Library)
    ensures CheckData(Some(d), schema, lib).Ok? <==> Accepted(d, schema, lib)
  {
    var s := Stripped(d);
    if |d| > 0 {
      AssignOkIff(Cleaned(s, lib), s);
      if Sanitize(s, s, lib).Ok? {
        AcceptedOnceSanitized(d, schema, lib);
      }
    }
  }

  /** Once every key sanitises and names a catalog field, the first entry of
      the sanitised array that fails its rule decides the rejection. */
  lemma ValidationDecides(d: Fields, schema: Schema, lib: Library)
    requires |d| > 0
    requires Sanitize(Stripped(d), Stripped(d), lib).Ok?
    requires |Unknown(d, schema, lib)| == 0
    requires ValidateFields(Sanitize(Stripped(d), Stripped(d), lib).value, lib).Some?
    ensures var clean := Sanitize(Stripped(d), Stripped(d), lib).value;
            var i := FirstFailure(clean, PassesWith(lib));
            i < |clean| && !FieldPasses(clean[i], lib) &&
            CheckData(Some(d), schema, lib) == Err(FieldFailure(clean[i].0, clean[i].1, lib))
  {
    KnownIff(d, schema, lib);
    ValidateFieldsFailure(Sanitize(Stripped(d), Stripped(d), lib).value, lib);
  }
}
