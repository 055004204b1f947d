/** The field/resource catalog and the per-field rule table (`App\Validator`).
    The database schema is a parameter: the list of tables, each given as the
    names of its columns, in the order the schema manager lists them. */
module Validator {
  import opened Wrappers
  import opened Seqs
  import opened Rules
  import opened Exceptions
  import opened Http

  /** `listTables()`, each table as the names returned by `getColumns()`. */
  type Schema = seq<seq<string>>

  /** The hard-coded resource (table) names, without the database prefix. */
  const Tables: seq<string> := [
    "access_tokens", "animal_categories", "animals", "cool_room_entries", "cool_rooms",
    "districts", "events", "feeding_area_types", "feeding_areas", "galleries",
    "hunting_grounds", "images", "lookout_conditions", "lookout_reservations", "lookouts",
    "shots", "sightings", "users"
  ]

  /** The two `^` characters are the pattern's delimiters, so the regular
      expression is `\$2[ayb]\$.{56}` and is not anchored. */
  const BcryptPattern: string := "^\\$2[ayb]\\$.{56}^"

  const UuidRule: Rule := Then(UuidRegex, Accept)
  const DateRule: Rule := Then(IsoDate, Accept)

  /** The PHP object an entry of the table holds: one built for that entry
      alone, or one of the two objects bound to several keys (`$vRegexUuid`
      and `$vDate`). */
  datatype Instance = Own(rule: Rule) | SharedUuid | SharedDate

  /** The rule the object carries. */
  function RuleOf(inst: Instance): Rule {
    match inst
    case Own(rule) => rule
    case SharedUuid => UuidRule
    case SharedDate => DateRule
  }

  /** A key and the object it holds. */
  type Entry = (string, Instance)

  /** The rule table, in declaration order. */
  const Validators: seq<Entry> := [
    ("id", SharedUuid),
    ("access_token", Own(Then(StringType, Then(NoWhitespace, Then(Length(64, None), Accept))))),
    ("name", Own(Then(StringType, Then(Length(3, Some(15)), Accept)))),
    ("category_id", SharedUuid),
    ("description", Own(Then(StringType, Accept))),
    ("cool_room_id", SharedUuid),
    ("animal_id", SharedUuid),
    ("animal_condition", SharedUuid),
    ("animal_weight", Own(Then(FloatVal, Accept))),
    ("delivered_at", SharedDate),
    ("address", Own(Then(StringType, Then(Length(5, Some(50)), Accept)))),
    ("hunting_ground_id", SharedUuid),
    ("coordinates", Own(Then(StringType, Then(Length(5, Some(100)), Accept)))),
    ("event_date", SharedDate),
    ("status", Own(Then(IntVal, Then(Length(2, None), Accept)))),
    ("district_id", SharedUuid),
    ("type_id", SharedUuid),
    ("image", Own(Then(StringType, Then(NoWhitespace, Then(Length(5, Some(100)), Accept))))),
    ("authority", Own(Then(StringType, Then(Length(5, Some(50)), Accept)))),
    ("society_identification_number", Own(Then(Numeric, Accept))),
    ("vat_number", Own(Then(StringType, Then(NoWhitespace, Then(Length(10, None), Accept))))),
    ("registration_number", Own(Then(Numeric, Accept))),
    ("address_street", Own(Then(StringType, Then(Length(5, Some(50)), Accept)))),
    ("address_zip", Own(Then(Numeric, Then(Length(4, None), Accept)))),
    ("address_city", Own(Then(StringType, Then(Length(5, Some(50)), Accept)))),
    ("gallery_id", SharedUuid),
    ("lookout_id", SharedUuid),
    ("start_date_time", SharedDate),
    ("end_date_time", SharedDate),
    ("type", Own(Then(IntVal, Then(Length(1, Some(2)), Accept)))),
    ("image_panorama", Own(Then(StringType, Then(NoWhitespace, Then(Length(5, Some(100)), Accept))))),
    ("shot_date", SharedDate),
    ("sighted_at", SharedDate),
    ("app_default_district_id", SharedUuid),
    ("first_name", Own(Then(StringType, Then(Length(5, Some(100)), Accept)))),
    ("last_name", Own(Then(StringType, Then(Length(5, Some(100)), Accept)))),
    ("phone_number", Own(Then(StringType, Then(Length(5, Some(15)), Accept)))),
    ("username", Own(Then(StringType, Then(NoWhitespace, Then(Length(2, Some(15)), Accept))))),
    ("password", Own(Then(Regex(BcryptPattern), Accept))),
    ("email", Own(Then(Email, Accept))),
    ("app_default_lang", Own(Then(Alpha, Then(Length(2, None), Accept))))
  ]

  /** `getAllDatabaseFields()`: every column name of every table, each once, in
      the order of its first appearance. */
  function AllDatabaseFields(schema: Schema): (r: seq<string>)
    ensures NoDuplicates(r)
    ensures forall x :: x in r <==> exists t :: 0 <= t < |schema| && x in schema[t]
    ensures forall i, j :: 0 <= i < j < |r| ==>
              r[i] in Flatten(schema) && r[j] in Flatten(schema) &&
              FirstIndex(Flatten(schema), r[i]) < FirstIndex(Flatten(schema), r[j])
  {
    var flat := Flatten(schema);
    AppendNewFromEmpty(flat);
    FirstsSpec(flat);
    forall x ensures x in flat <==> exists t :: 0 <= t < |schema| && x in schema[t] {
      FlattenMembership(schema, x);
    }
    AppendNew([], flat)
  }

  /** `getApiFields($filters)`: the database fields not named in `filters`, in order. */
  function ApiFields(schema: Schema, filters: seq<string>): (r: seq<string>)
    ensures forall x :: x in r <==> x in AllDatabaseFields(schema) && x !in filters
    ensures Subsequence(r, AllDatabaseFields(schema))
    ensures NoDuplicates(r)
    ensures filters == [] ==> r == AllDatabaseFields(schema)
  {
    Exclude(AllDatabaseFields(schema), filters)
  }

  /** `isValidParameterName($p)`: `p` names a column of some table. */
  function IsValidParameterName(schema: Schema, p: string): (r: bool)
    ensures r <==> exists t :: 0 <= t < |schema| && p in schema[t]
  {
    p in ApiFields(schema, [])
  }

  function Prefixed(prefix: string, names: seq<string>): (r: seq<string>)
    ensures |r| == |names|
    ensures forall i :: 0 <= i < |names| ==> r[i] == prefix + names[i]
    decreases |names|
  {
    if names == [] then [] else [prefix + names[0]] + Prefixed(prefix, names[1..])
  }

  /** `getTableNames($includePrefix)`: the hard-coded names, each preceded by the
      configured database prefix when asked for. */
  function TableNames(includePrefix: bool, prefix: string): (r: seq<string>)
    ensures |r| == |Tables|
    ensures forall i :: 0 <= i < |Tables| ==> r[i] == (if includePrefix then prefix + Tables[i] else Tables[i])
  {
    if includePrefix then Prefixed(prefix, Tables) else Tables
  }

  /** Stripping the prefix from each prefixed name gives back the plain list, in order. */
  lemma StripPrefixRoundTrip(prefix: string)
    ensures forall i :: 0 <= i < |Tables| ==>
              TableNames(true, prefix)[i][..|prefix|] == prefix &&
              TableNames(true, prefix)[i][|prefix|..] == TableNames(false, prefix)[i]
  {
  }

  /** The prefixed list coincides with the plain one exactly when the prefix is empty. */
  lemma PrefixedEqualsPlainIff(prefix: string)
    ensures TableNames(true, prefix) == TableNames(false, prefix) <==> prefix == ""
  {
    PrefixedIdentityIff(prefix, Tables);
  }

  lemma PrefixedIdentityIff(prefix: string, names: seq<string>)
    requires |names| > 0
    ensures Prefixed(prefix, names) == names <==> prefix == ""
  {
    var p := Prefixed(prefix, names);
    if prefix == "" {
      assert forall i :: 0 <= i < |names| ==> p[i] == names[i];
    } else {
      assert |p[0]| > |names[0]|;
    }
  }

  /** `isValidResource($r)`: `r` is one of the hard-coded plain table names; the
      configured prefix plays no part. */
  function IsValidResource(resource: string): (r: bool)
    ensures r <==> exists i :: 0 <= i < |Tables| && Tables[i] == resource
    ensures r ==> forall prefix :: resource in TableNames(false, prefix)
  {
    resource in TableNames(false, "")
  }

  /** The object the entry for `field` holds, from the first entry with that key. */
  function InstanceFor(table: seq<Entry>, field: string): (r: Option<Instance>)
    ensures r.None? <==> forall i :: 0 <= i < |table| ==> table[i].0 != field
    ensures r.Some? ==> exists i :: 0 <= i < |table| && table[i] == (field, r.value) &&
                          forall j :: 0 <= j < i ==> table[j].0 != field
    decreases |table|
  {
    if table == [] then None
    else if table[0].0 == field then Some(table[0].1)
    else
      var r := InstanceFor(table[1..], field);
      assert forall i :: 0 < i < |table| ==> table[i] == table[1..][i - 1];
      r
  }

  /** The rule for `field`: the rule of the object its entry holds. */
  function RuleFor(table: seq<Entry>, field: string): (r: Option<Rule>)
    ensures r.None? <==> forall i :: 0 <= i < |table| ==> table[i].0 != field
    ensures r.Some? ==> exists i :: 0 <= i < |table| && table[i].0 == field && RuleOf(table[i].1) == r.value
  {
    match InstanceFor(table, field)
    case None => None
    case Some(inst) => Some(RuleOf(inst))
  }

  /** `getValidators($filters)`: the rule table without the entries whose key is
      listed in `filters`; the other entries keep their order. */
  function GetValidators(filters: seq<string>): (r: seq<Entry>)
    ensures forall e :: e in r <==> e in Validators && e.0 !in filters
    ensures Subsequence(r, Validators)
    ensures filters == [] ==> r == Validators
  {
    WithoutKeys(Validators, filters)
  }

  function WithoutKeys(table: seq<Entry>, filters: seq<string>): (r: seq<Entry>)
    ensures forall e :: e in r <==> e in table && e.0 !in filters
    ensures Subsequence(r, table)
    ensures filters == [] ==> r == table
    decreases |table|
  {
    if table == [] then []
    else if table[0].0 in filters then
      var r := WithoutKeys(table[1..], filters);
      assert r == [] || r[0] != table[0];
      r
    else [table[0]] + WithoutKeys(table[1..], filters)
  }

  /** The filter drops exactly the listed keys: a listed key has no rule left,
      an unlisted one keeps its rule. */
  lemma GetValidatorsDropsExactly(filters: seq<string>, field: string)
    ensures field in filters ==> RuleFor(GetValidators(filters), field).None?
    ensures field !in filters ==> RuleFor(GetValidators(filters), field) == RuleFor(Validators, field)
  {
    var r := GetValidators(filters);
    if field in filters {
      forall i | 0 <= i < |r| ensures r[i].0 != field {
        assert r[i] in r;
      }
    } else {
      WithoutKeysKeepsRule(Validators, filters, field);
    }
  }

  lemma {:induction false} WithoutKeysKeepsRule(table: seq<Entry>, filters: seq<string>, field: string)
    requires field !in filters
    ensures InstanceFor(WithoutKeys(table, filters), field) == InstanceFor(table, field)
    ensures RuleFor(WithoutKeys(table, filters), field) == RuleFor(table, field)
    decreases |table|
  {
    if table != [] {
      WithoutKeysKeepsRule(table[1..], filters, field);
    }
  }

  /** The first entry with key `field` decides its object and rule. */
  lemma RuleForAt(table: seq<Entry>, field: string, i: nat)
    requires i < |table| && table[i].0 == field
    requires forall j :: 0 <= j < i ==> table[j].0 != field
    ensures InstanceFor(table, field) == Some(table[i].1)
    ensures RuleFor(table, field) == Some(RuleOf(table[i].1))
    decreases i
  {
    if i > 0 {
      RuleForAt(table[1..], field, i - 1);
    }
  }


  /** The `setName` loop of `getValidators`, followed for one shared object: it
      is called `name` when the loop reaches `table`, and every entry holding it
      renames it after that entry's key. `Own` values are compared by value, not
      by object identity, so they are not followed: each is held by its own
      entry alone. */
  function NameAfterLoop(table: seq<Entry>, inst: Instance, name: string): string
    requires !inst.Own?
    decreases |table|
  {
    if table == [] then name
    else NameAfterLoop(table[1..], inst, if table[0].1 == inst then table[0].0 else name)
  }

  /** An object no entry of `table` holds keeps its name. */
  lemma {:induction false} NameAfterLoopKeeps(table: seq<Entry>, inst: Instance, name: string)
    requires !inst.Own?
    requires forall j :: 0 <= j < |table| ==> table[j].1 != inst
    ensures NameAfterLoop(table, inst, name) == name
    decreases |table|
  {
    if table != [] {
      assert table[0].1 != inst;
      NameAfterLoopKeeps(table[1..], inst, name);
    }
  }

  /** The last entry holding a shared object names it, whatever it was called before. */
  lemma {:induction false} NameAfterLoopIsLast(table: seq<Entry>, inst: Instance, name: string, i: nat)
    requires !inst.Own?
    requires i < |table| && table[i].1 == inst
    requires forall j :: i < j < |table| ==> table[j].1 != inst
    ensures NameAfterLoop(table, inst, name) == table[i].0
    decreases |table|
  {
    var next := if table[0].1 == inst then table[0].0 else name;
    if i == 0 {
      NameAfterLoopKeeps(table[1..], inst, next);
    } else {
      NameAfterLoopIsLast(table[1..], inst, next, i - 1);
    }
  }

  /** The name `validateParam`'s validator for `field` carries once the
      `setName` loop has run: its own key for an object of its own, the last
      key holding it for a shared one. */
  function ValidatorName(field: string): string {
    match InstanceFor(Validators, field)
    case Some(SharedUuid) => NameAfterLoop(Validators, SharedUuid, field)
    case Some(SharedDate) => NameAfterLoop(Validators, SharedDate, field)
    case _ => field
  }

  /** Every key holding the shared UUID object reports the name of the last
      one, `app_default_district_id`; every key holding the shared date object
      reports `sighted_at`; every other key reports itself. */
  lemma ValidatorNames(field: string)
    ensures InstanceFor(Validators, field).Some? && InstanceFor(Validators, field).value.Own? ==> ValidatorName(field) == field
    ensures InstanceFor(Validators, field) == Some(SharedUuid) ==> ValidatorName(field) == "app_default_district_id"
    ensures InstanceFor(Validators, field) == Some(SharedDate) ==> ValidatorName(field) == "sighted_at"
  {
    NameAfterLoopIsLast(Validators, SharedUuid, field, 33);
    NameAfterLoopIsLast(Validators, SharedDate, field, 32);
  }

  /** A key holding the shared UUID object fails under the name of the last
      key holding it: `validateParam($v, 'category_id')` on a non-UUID throws
      the refusal of `validation: app_default_district_id`. */
  lemma SharedUuidRefusal(field: string, value: string, lib: Library)
    requires InstanceFor(Validators, field) == Some(SharedUuid)
    requires !lib.holds(UuidRegex, value)
    ensures ValidatorName(field) == "app_default_district_id"
    ensures ValidateParam(value, field, true, lib) == Err(Refusal(field, UuidRegex, value, lib))
  {
    assert RuleFor(Validators, field) == Some(UuidRule);
    ValidatorNames(field);
    assert FirstRefusal(UuidRule, value, lib.holds) == Some(UuidRegex);
  }

  /** What `check()` throws when the validator for `field` refuses `value` at
      `link`: the validation library's exception under the validator's name. */
  function Refusal(field: string, link: Constraint, value: string, lib: Library): Exc {
    NewValidation("validation: " + ValidatorName(field), link, value, lib.classes)
  }

  /** `validateParam($value, $field, $exceptionMode)`. A field without a rule
      is a configuration error (a `RuntimeException`) whatever the value and
      mode. Otherwise exception mode answers `true` on a passing value and
      throws the refusal of the first failing link on a failing one, and the
      other mode answers whether the value passes. */
  function ValidateParam(value: string, field: string, exceptionMode: bool, lib: Library): (r: Result<bool, Exc>)
    ensures RuleFor(Validators, field).None? ==> r == Err(NewRuntime(field))
    ensures RuleFor(Validators, field).Some? ==>
              var rule := RuleFor(Validators, field).value;
              var passes := Passes(rule, value, lib.holds);
              if exceptionMode then
                (r == Ok(true) <==> passes) &&
                (!passes ==> FirstRefusal(rule, value, lib.holds).Some? &&
                             r == Err(Refusal(field, FirstRefusal(rule, value, lib.holds).value, value, lib)))
              else r == Ok(passes)
  {
    match RuleFor(Validators, field)
    case None => Err(NewRuntime(field))
    case Some(rule) =>
      FirstRefusalSpec(rule, value, lib.holds);
      match FirstRefusal(rule, value, lib.holds)
      case None => Ok(true)
      case Some(link) => if exceptionMode then Err(Refusal(field, link, value, lib)) else Ok(false)
  }

  /** Both modes give the same verdict: exception mode succeeds exactly when the
      other mode answers `true`, and both fail alike on a field without a rule. */
  lemma ValidateParamModesAgree(value: string, field: string, lib: Library)
    ensures ValidateParam(value, field, true, lib).Ok? <==> ValidateParam(value, field, false, lib) == Ok(true)
    ensures RuleFor(Validators, field).None? ==>
              ValidateParam(value, field, true, lib) == ValidateParam(value, field, false, lib)
  {
  }

  /** The username field has a rule (string, no whitespace, 2 to 15 long), so
      validating it never raises the configuration error. */
  lemma UsernameRule()
    ensures RuleFor(Validators, "username") == Some(Then(StringType, Then(NoWhitespace, Then(Length(2, Some(15)), Accept))))
  {
    RuleForAt(Validators, "username", 37);
  }

  /** The password field has a rule (the bcrypt pattern), so validating it never
      raises the configuration error. */
  lemma PasswordRule()
    ensures RuleFor(Validators, "password") == Some(Then(Regex(BcryptPattern), Accept))
  {
    RuleForAt(Validators, "password", 38);
  }
}
