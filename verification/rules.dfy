/** Validation rules as tagged data. Each link of a rule chain
    (`v::stringType()->length(3, 15)`) is one `Constraint`; what a constraint
    accepts is the validation library's business and reaches the model as a
    parameter. */
module Rules {
  import opened Wrappers

  datatype Constraint =
    | UuidRegex                          // v::regex('/' . Uuid::VALID_PATTERN . '/')
    | Regex(pattern: string)             // v::regex($pattern)
    | IsoDate                            // v::date(DATE_ISO8601)
    | StringType                         // v::stringType()
    | NoWhitespace                       // ->noWhitespace()
    | Length(min: nat, max: Option<nat>) // ->length($min, $max = null): one argument is a lower bound only
    | FloatVal                           // v::floatVal()
    | IntVal                             // v::intVal()
    | Numeric                            // v::numeric()
    | Email                              // v::email()
    | Alpha                              // v::alpha()

  /** A chain of constraints, in the order the source chains them. */
  datatype Rule = Accept | Then(link: Constraint, next: Rule)

  /** The chain `rule` accepts `value`, given what each link accepts: every
      link does. */
  predicate Passes(rule: Rule, value: string, holds: (Constraint, string) -> bool) {
    match rule
    case Accept => true
    case Then(c, rest) => holds(c, value) && Passes(rest, value, holds)
  }
  /** The links of a chain, in order. */
  function Links(rule: Rule): (cs: seq<Constraint>)
    ensures rule.Accept? <==> cs == []
  {
    match rule
    case Accept => []
    case Then(c, rest) => [c] + Links(rest)
  }

  /** The link whose exception `check()` throws: the first one that rejects
      `value`, or none when the chain accepts it. */
  function FirstRefusal(rule: Rule, value: string, holds: (Constraint, string) -> bool): (r: Option<Constraint>)
  {
    match rule
    case Accept => None
    case Then(c, rest) => if holds(c, value) then FirstRefusal(rest, value, holds) else Some(c)
  }

  /** A chain passes exactly when every link holds. */
  lemma {:induction false} PassesLinks(rule: Rule, value: string, holds: (Constraint, string) -> bool)
    ensures Passes(rule, value, holds) <==> forall i :: 0 <= i < |Links(rule)| ==> holds(Links(rule)[i], value)
  {
    match rule
    case Accept =>
    case Then(c, rest) =>
      PassesLinks(rest, value, holds);
      var ls := Links(rule);
      assert ls == [c] + Links(rest);
      assert Passes(rule, value, holds) == (holds(c, value) && Passes(rest, value, holds));
      if Passes(rule, value, holds) {
        forall i | 0 <= i < |ls| ensures holds(ls[i], value) {
          if i > 0 { assert ls[i] == Links(rest)[i - 1]; }
        }
      } else if holds(c, value) {
        assert !Passes(rest, value, holds);
        var k :| 0 <= k < |Links(rest)| && !holds(Links(rest)[k], value);
        assert ls[k + 1] == Links(rest)[k];
        assert !holds(Links(rule)[k + 1], value);
      } else {
        assert ls[0] == c;
        assert !holds(Links(rule)[0], value);
        assert !Passes(rule, value, holds);
      }
  }

  /** The refused link is one that fails, every link before it holds, and
      there is none exactly when the chain passes. */
  lemma {:induction false} FirstRefusalSpec(rule: Rule, value: string, holds: (Constraint, string) -> bool)
    ensures FirstRefusal(rule, value, holds).None? <==> Passes(rule, value, holds)
    ensures FirstRefusal(rule, value, holds).Some? ==>
              exists i :: 0 <= i < |Links(rule)| && Links(rule)[i] == FirstRefusal(rule, value, holds).value &&
                !holds(Links(rule)[i], value) &&
                forall j :: 0 <= j < i ==> holds(Links(rule)[j], value)
  {
    match rule
    case Accept =>
    case Then(c, rest) =>
      FirstRefusalSpec(rest, value, holds);
      var ls := Links(rule);
      assert ls == [c] + Links(rest);
      if holds(c, value) && FirstRefusal(rest, value, holds).Some? {
        var i :| 0 <= i < |Links(rest)| && Links(rest)[i] == FirstRefusal(rest, value, holds).value &&
                 !holds(Links(rest)[i], value) && forall j :: 0 <= j < i ==> holds(Links(rest)[j], value);
        assert ls[i + 1] == Links(rest)[i];
        assert forall j :: 0 < j <= i ==> ls[j] == Links(rest)[j - 1];
      } else if !holds(c, value) {
        assert ls[0] == c;
      }
  }
}
