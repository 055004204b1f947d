# Middleware collection: a Dafny model of the request filters

The repository is a set of Slim request middlewares. Each one checks a request
in a fixed order. It then either calls the next handler once, or answers with
an `X-Status-Reason` header carrying the failure's message and a status code.
The model covers:

- the field and resource catalog with its per-field rule table (`App\Validator`);
- request-body validation (`RequestDataValidation`): the method gate, the
  `data` presence check, dropping `id`, key and value normalisation, collecting
  unknown keys, and per-field rule checks;
- Bearer-token authentication (`RequestTokenValidation`), with the session's
  cached token as an explicit input and output;
- login-credential validation (`UserCredentialsValidation`);
- header validation (`RequestHeadersValidation`);
- the invalid-parameter exception (`RequestParameterInvalidException`).

Everything is a pure function over immutable values:

- A request is a record of already-parsed values: the method, the `Accept`
  line, media type, charset and media-type parameters, the `Authorization`
  line, the scalar parameters, and the `data` payload.
- A middleware's answer is an `Outcome`: `Next`, `Reject(reason, status)`,
  or `Uncaught(error)` for an exception the middleware does not catch.
- A PHP array is an association list with distinct keys, in insertion order.
- An exception is its kind, message and code.
- A validation rule is the chain of its constraints, kept as tagged data.

The library calls are parameters of the model, bundled in a `Library` record:

- `filter_var(…, FILTER_SANITIZE_STRING)`;
- what each validation constraint accepts;
- the message and code of the exception classes whose source is not part of
  this model.

The database schema and the user store are parameters too. PHP's `trim`,
`strtolower`, `implode`, string truthiness and the PCRE `\s` class are
modelled concretely, over ASCII.

Modules, one per file:

| module | file |
|---|---|
| `Wrappers` | wrappers.dfy |
| `Seqs` | seqs.dfy |
| `Php` | php.dfy |
| `Fields` | fields.dfy |
| `Rules` | rules.dfy |
| `Exceptions` | exceptions.dfy |
| `Http` | http.dfy |
| `Users` | users.dfy |
| `Validator` | validator.dfy |
| `DataValidation` | data.dfy |
| `TokenValidation` | token.dfy |
| `CredentialsValidation` | credentials.dfy |
| `HeadersValidation` | headers.dfy |

Three behaviours of `RequestDataValidation` shape the model:

- An invalid key is reported under its normalised form, which is the empty
  string or `0`, not under the key as sent.
- The cleaned payload is not handed on, because the write at line 127 of
  `RequestDataValidation.php` goes into a temporary. The next handler sees
  the request as it came.
- The sanitising loop never unsets a raw key. The raw keys and their
  normalised forms are both checked against the catalog.

Two behaviours of `Validator::getValidators` decide what a failed validation
reports:

- The UUID rule and the ISO-date rule are each one object shared by several
  keys, and the `setName` loop renames an object at every key that holds it.
  A shared object therefore keeps the name of the last such key:
  `validation: app_default_district_id` for every UUID field and
  `validation: sighted_at` for every date field.
- `check()` throws the exception of the first link of the chain that refuses
  the value, so `username` reports a whitespace failure and a length failure
  differently.

## Model

| member | source | states |
|---|---|---|
| Validator.AllDatabaseFields | src/App/Validator.php:158-174 | The database fields have no duplicates, hold exactly the columns of some table, and follow the order of first appearance across the tables. |
| Validator.ApiFields | src/App/Validator.php:142-152 | The API fields are exactly the database fields not listed in the filters, in their original order, without duplicates; an empty filter list keeps them all. |
| Validator.IsValidParameterName | src/App/Validator.php:84-87 | A name is a valid parameter exactly when it is a column of some table. |
| Validator.TableNames | src/App/Validator.php:181-229 | The table list has one entry per hard-coded name, in order; with the prefix flag each entry is the configured prefix followed by the name. |
| Validator.StripPrefixRoundTrip | src/App/Validator.php:217-226 | Each prefixed table name starts with the prefix, and removing it gives back the plain name at the same position. |
| Validator.PrefixedEqualsPlainIff | src/App/Validator.php:217-226 | The prefixed list equals the plain list if and only if the prefix is empty. |
| Validator.IsValidResource | src/App/Validator.php:94-97 | A resource is valid exactly when it is one of the hard-coded plain table names, whatever prefix is configured. |
| Validator.RuleFor | src/App/Validator.php:110-121 | A field has no rule exactly when no entry of the table has its name; a rule found is the rule of an entry with that name. |
| Validator.GetValidators | src/App/Validator.php:238-297 | The filtered table holds exactly the entries whose name is not listed, in their original order; an empty filter list keeps the whole table. |
| Validator.GetValidatorsDropsExactly | src/App/Validator.php:288-291 | A filtered name has no rule left, and an unfiltered name keeps the rule it had. |
| Validator.InstanceFor | src/App/Validator.php:241-286 | The object found for a field is the one held by the first entry with that name, and there is none exactly when no entry has that name. `RuleFor` reads the rule from this object. |
| Validator.NameAfterLoopIsLast | src/App/Validator.php:288-294 | After the renaming loop, a shared validator object is named after the last entry that holds it, whatever its name before. |
| Validator.ValidatorNames | src/App/Validator.php:241-294 | A field with an object of its own reports its own name; every field holding the shared UUID object reports `app_default_district_id`, and every field holding the shared date object reports `sighted_at`. |
| Validator.SharedUuidRefusal | src/App/Validator.php:241-294 | Validating a UUID field such as `category_id` with a value the UUID pattern refuses throws the refusal under the name `app_default_district_id`. |
| Validator.ValidateParam | src/App/Validator.php:108-128 | A field without a rule fails with the runtime error whatever the value and mode. Otherwise exception mode answers true exactly when the value passes, and on a failing value throws the refusal of the first link that fails, under the validator's name after the renaming loop; the other mode answers whether the value passes. |
| Validator.ValidateParamModesAgree | src/App/Validator.php:123-127 | Exception mode succeeds exactly when the other mode answers true, and both fail alike on a field without a rule. |
| Validator.UsernameRule | src/App/Validator.php:282 | The username rule is string, no whitespace, length 2 to 15. |
| Validator.PasswordRule | src/App/Validator.php:283 | The password rule is the bcrypt pattern. |
| Rules.PassesLinks | src/App/Validator.php:123-127 | A chained rule accepts a value exactly when every one of its links does. |
| Rules.FirstRefusalSpec | src/App/Validator.php:124 | The refused link is a link of the chain that fails, every link before it holds, and there is none exactly when the chain passes. |
| Exceptions.NewInvalidParameter | src/App/Exceptions/RequestParameterInvalidException.php:55-58 | The invalid-parameter exception has code 400, and its message wraps the parameter name so that the name can be read back from it. |
| Exceptions.InvalidMessageInjective | src/App/Exceptions/RequestParameterInvalidException.php:57 | Distinct parameter names give distinct messages. |
| Exceptions.InvalidIgnoresCode | src/App/Exceptions/RequestParameterInvalidException.php:55-58 | The code passed to the constructor has no influence on the exception. |
| Exceptions.InvalidNeverFallsBack | src/App/Exceptions/RequestParameterInvalidException.php:58 | The status of an invalid-parameter rejection is 400 under any fallback, since its code is never 0. |
| Php.Trim | src/App/Middleware/RequestDataValidation.php:98-99 | A trimmed string is no longer than the input and starts and ends with no trim character. |
| Php.TrimInfix | src/App/Middleware/RequestDataValidation.php:98-99 | A trimmed string is a contiguous piece of the input, and everything cut off on either side is trim characters. |
| Php.TrimIdempotent | src/App/Middleware/RequestDataValidation.php:98-99 | Trimming twice is trimming once. |
| Php.ToLowerSpec | src/App/Middleware/RequestDataValidation.php:98 | A lower-cased key holds no capital letter, and lower-casing it again changes nothing. |
| Php.SplitJoin | src/App/Middleware/RequestDataValidation.php:118 | A non-empty list of names without commas, once comma-joined, splits back into the same list. |
| Fields.Put | src/App/Middleware/RequestDataValidation.php:105 | Assigning a key gives it the new value and changes no other key's value; an existing key keeps its place and a new key is appended. |
| Fields.PutLookup | src/App/Middleware/RequestDataValidation.php:105 | Assigning a key gives it the new value and leaves every other key's value as it was. |
| Fields.PutKeys | src/App/Middleware/RequestDataValidation.php:105 | The keys after an assignment are the keys before, plus the assigned key at the end if it was new. |
| Fields.Remove | src/App/Middleware/RequestDataValidation.php:92-94 | Unsetting a key removes exactly that key and changes no other key's value; unsetting an absent key changes nothing. |
| Seqs.AppendNewFromEmpty | src/App/Validator.php:163-173 | The de-duplicating loop from an empty list yields the first occurrences of its input. |
| Seqs.FirstsSpec | src/App/Validator.php:163-173 | The first occurrences have no duplicates, have exactly the input's elements, and keep their order of first appearance. |
| DataValidation.Cleaned | src/App/Middleware/RequestDataValidation.php:97-99 | Entry by entry, the key is trimmed, sanitised and lower-cased, and the value is trimmed and sanitised. |
| DataValidation.Assign | src/App/Middleware/RequestDataValidation.php:97-106 | A failure of the sanitising loop is the invalid-parameter error, with code 400. |
| DataValidation.AssignOkIff | src/App/Middleware/RequestDataValidation.php:97-106 | The sanitising loop runs to the end exactly when no normalised key is falsy. |
| DataValidation.AssignError | src/App/Middleware/RequestDataValidation.php:101-103 | A failing loop names the first falsy normalised key and no other. |
| DataValidation.AssignKeys | src/App/Middleware/RequestDataValidation.php:105 | After the loop the array holds its original keys in place, followed by each new normalised key at its first occurrence; no key is removed. |
| DataValidation.AssignValues | src/App/Middleware/RequestDataValidation.php:105 | After the loop a normalised key holds the value of its last entry, and every other key keeps its value. |
| DataValidation.UnknownFields | src/App/Middleware/RequestDataValidation.php:110-115 | The collected names are exactly the keys that name no catalog field, in iteration order. |
| DataValidation.FieldFailure | src/App/Middleware/RequestDataValidation.php:123 | A failing entry throws the runtime error (code 0) exactly when its field has no rule; otherwise it throws the refusal of the first link its value fails. |
| DataValidation.ValidateFields | src/App/Middleware/RequestDataValidation.php:122-124 | A failure of the validation loop is a validation exception or the runtime error with code 0. |
| DataValidation.ValidateParamStep | src/App/Middleware/RequestDataValidation.php:123 | Validating one entry succeeds exactly when the entry passes its rule, and otherwise throws that entry's failure. |
| DataValidation.ValidateFieldsPassIff | src/App/Middleware/RequestDataValidation.php:122-124 | The validation loop runs to the end exactly when every entry has a rule its value passes. |
| DataValidation.ValidateFieldsFailure | src/App/Middleware/RequestDataValidation.php:122-124 | A failing validation loop throws the failure of the first failing entry, for that entry's key and value. |
| DataValidation.CheckData | src/App/Middleware/RequestDataValidation.php:85-124 | A missing or empty payload is the missing-parameter error. An accepted payload has only catalog keys, each passing its rule. Any other failure is an invalid, unknown, validation or runtime exception. |
| DataValidation.Invoke | src/App/Middleware/RequestDataValidation.php:75-135 | Methods other than PUT, POST and PATCH pass unchecked. Otherwise the request passes exactly when its payload is accepted; a missing-rule runtime error escapes uncaught, and every other failure is answered with its message and its code, or 400 when the code is 0. |
| DataValidation.OnlyExactIdDropped | src/App/Middleware/RequestDataValidation.php:92-94 | Only the exact key `id` is dropped; every other raw key goes on to be checked. |
| DataValidation.SanitizedKeys | src/App/Middleware/RequestDataValidation.php:97-106 | After sanitising, the array holds the raw keys followed by the new normalised keys, each once. |
| DataValidation.InvalidKeyRejected | src/App/Middleware/RequestDataValidation.php:97-133 | A key that normalises to a falsy string is rejected with status 400 and a message naming the first such normalised key. |
| DataValidation.UnknownOf | src/App/Middleware/RequestDataValidation.php:110-115 | The unknown names of a key list are exactly its keys that name no catalog field, each once. |
| DataValidation.Unknown | src/App/Middleware/RequestDataValidation.php:110-115 | The unknown keys are exactly the raw or normalised keys that name no catalog field, each once. |
| DataValidation.UnknownReportedTogether | src/App/Middleware/RequestDataValidation.php:110-119 | All unknown keys are reported in one unknown-parameter exception whose argument is their comma-joined list, before any value is validated. |
| DataValidation.UnknownListReadsBack | src/App/Middleware/RequestDataValidation.php:118 | When no unknown key holds a comma, the reported list splits back into exactly the unknown keys. |
| DataValidation.RawKeyUnknown | src/App/Middleware/RequestDataValidation.php:92-113 | A raw key other than `id` that names no catalog field is among the unknown keys, whatever it normalises to. |
| DataValidation.RawKeyChecked | src/App/Middleware/RequestDataValidation.php:97-119 | Such a raw key makes the payload fail as unknown, even when its normalised form is a catalog field. |
| DataValidation.OnlyIdAccepted | src/App/Middleware/RequestDataValidation.php:85-130 | A payload holding only `id` is accepted without any check. |
| DataValidation.IdValueIgnored | src/App/Middleware/RequestDataValidation.php:92-94 | Non-empty payloads that agree once `id` is dropped get the same answer. |
| DataValidation.AcceptedIsSanitized | src/App/Middleware/RequestDataValidation.php:97-124 | An accepted payload is the sanitiser's result and holds exactly the raw and normalised keys. |
| DataValidation.AcceptedKeys | src/App/Middleware/RequestDataValidation.php:110-119 | In an accepted payload every raw key but `id`, and every normalised key, names a catalog field. |
| DataValidation.AcceptedValues | src/App/Middleware/RequestDataValidation.php:105-124 | In an accepted payload, the cleaned value of the last entry of each normalised key passes that field's rule. |
| DataValidation.CheckDataAccepts | src/App/Middleware/RequestDataValidation.php:85-124 | A payload is accepted exactly when it is non-empty, no key normalises to a falsy string, every raw key but `id` and every normalised key names a catalog field, and every value the validation loop sees passes its field's rule. |
| DataValidation.AcceptedOnceSanitized | src/App/Middleware/RequestDataValidation.php:108-124 | Once every key sanitises, the payload is accepted exactly when every raw and normalised key names a catalog field and every value the validation loop sees passes. |
| DataValidation.KnownIff | src/App/Middleware/RequestDataValidation.php:108-119 | Once every key sanitises, the catalog check collects exactly the unknown keys, and finds none exactly when every raw and normalised key names a catalog field. |
| DataValidation.SanitizedPasses | src/App/Middleware/RequestDataValidation.php:105-124 | Once every key sanitises, the validation loop finds no failure exactly when, under every key, the cleaned value of its last entry, or else the raw value left in place, passes its rule. |
| DataValidation.ValidationDecides | src/App/Middleware/RequestDataValidation.php:117-124 | Once every key sanitises and none is unknown, a failing payload is rejected with the failure of the first entry of the sanitised array that fails its rule. |
| TokenValidation.SearchFrom | src/App/Middleware/RequestTokenValidation.php:85 | The search finds the leftmost position where `Bearer`, one whitespace character and a non-whitespace character begin, or reports that there is none. |
| TokenValidation.BearerToken | src/App/Middleware/RequestTokenValidation.php:85-89 | No token is found exactly when the pattern matches nowhere. A found token is non-empty and holds no whitespace, and it is the whole non-whitespace run after the leftmost match. |
| TokenValidation.BearerRoundTrip | src/App/Middleware/RequestTokenValidation.php:85-89 | A header that is `Bearer `, then a non-empty run of non-whitespace, gives back that token. |
| TokenValidation.Authenticate | src/App/Middleware/RequestTokenValidation.php:105-151 | The full check succeeds exactly when the credentials sanitise to truthy strings of an active user whose valid stored token is the presented one; it then yields that token. |
| TokenValidation.Invoke | src/App/Middleware/RequestTokenValidation.php:78-159 | A missing header or Bearer token is rejected with the session unchanged. A cached token equal to the presented one passes at once. Otherwise the request passes exactly when the full check succeeds, and the session then caches the token; a failed full check is answered with its exception's message and code and leaves the session empty. |
| TokenValidation.CacheHitSkipsStore | src/App/Middleware/RequestTokenValidation.php:97-99 | On a cache hit neither the parameters nor the user store make any difference, and the request passes. |
| TokenValidation.SuccessThenReplayHits | src/App/Middleware/RequestTokenValidation.php:97-156 | After a success the same request is a cache hit, whatever the store then holds. |
| TokenValidation.SessionAfterwards | src/App/Middleware/RequestTokenValidation.php:97-154 | The cached token afterwards is the one before, the presented one, or none. |
| TokenValidation.FailureOrder | src/App/Middleware/RequestTokenValidation.php:108-151 | The failures come in a fixed order: missing username, missing password, invalid username, invalid password, no user, no token, token mismatch, token expired. |
| HeadersValidation.Invoke | src/App/Middleware/RequestHeadersValidation.php:55-86 | The request passes exactly when `Accept` and the media type are exactly JSON, the charset is exactly `utf-8`, and a version parameter, if any, is `1`. The first failing check, in that order, decides the message. |
| HeadersValidation.AcceptDecidesFirst | src/App/Middleware/RequestHeadersValidation.php:58-65 | A missing or wrong `Accept` header decides the answer alone; the other headers make no difference. |
| HeadersValidation.VersionOptional | src/App/Middleware/RequestHeadersValidation.php:77-81 | A missing version parameter is accepted like version 1. |
| CredentialsValidation.CheckUsername | src/App/Middleware/UserCredentialsValidation.php:106 | Validating the username succeeds exactly when each link of its rule holds; otherwise it throws the refusal of the first failing link, in the order string type, no whitespace, length 2 to 15. |
| CredentialsValidation.CheckPassword | src/App/Middleware/UserCredentialsValidation.php:107 | Validating the password succeeds exactly when the bcrypt pattern holds, and otherwise throws the pattern's refusal under the name `password`. |
| CredentialsValidation.Check | src/App/Middleware/UserCredentialsValidation.php:80-121 | Every failure of the check is a missing-parameter, invalid-parameter, validation or authentication exception, never the runtime error. |
| CredentialsValidation.Invoke | src/App/Middleware/UserCredentialsValidation.php:78-126 | No exception escapes; every failure of the check is answered with its message and its code, or 401 when the code is 0. |
| CredentialsValidation.InvokeAccepts | src/App/Middleware/UserCredentialsValidation.php:80-121 | The request passes exactly when both credentials are present and sanitise to truthy strings that satisfy their rules and belong to an active user. |
| CredentialsValidation.FailureOrder | src/App/Middleware/UserCredentialsValidation.php:84-118 | The failures come in a fixed order: missing username, missing password, invalid username, invalid password, username rule, password rule, no such user. |
| CredentialsValidation.InvalidCredentialIs400 | src/App/Middleware/UserCredentialsValidation.php:95-124 | A credential that sanitises to a falsy string is rejected with 400, not the 401 fallback. |
| CredentialsValidation.SanitizedDecides | src/App/Middleware/UserCredentialsValidation.php:92-114 | Only the sanitised credentials matter: requests whose credentials sanitise alike get the same answer. |

## Left out

- Slim's request and response objects and header parsing: the model takes the parsed `Accept` line, media type, charset, media-type parameters and `Authorization` line as inputs.
- Doctrine: the schema is a list of tables, each given by its column names, and the user store is a map from active users' (username, password) to their token record. The validity of a token depends on the clock and is an input flag.
- The validation library's constraint semantics (string type, length, regex, ISO date, e-mail and the rest): what each constraint accepts is a parameter. The rule table itself is modelled entry by entry. The bcrypt pattern is recorded as written: its two `^` characters are the delimiters, so the regular expression is `\$2[ayb]\$.{56}` and is not anchored. The regex engine is not modelled.
- `filter_var(…, FILTER_SANITIZE_STRING)` is a parameter, applied to strings only.
- Validator.IsValidParameterName: names are compared as exact strings. PHP's loose `in_array` also equates distinct numeric strings such as `10` and `1e1`.
- Validator.IsValidResource: the argument is a string. `isValidResource` declares no parameter type, and the loose `in_array` lets non-string arguments through: `true` matches every table name, and so does `0` under PHP 7. Such arguments are not modelled. For strings the comparison is exact, because no table name is a numeric string.
- Validator.ApiFields: the filter list is compared by exact string equality, for the same reason.
- Validator.AllDatabaseFields: duplicates are detected by exact string equality, for the same reason.
- DataValidation.CheckData and DataValidation.Invoke: the `data` parameter is an array or absent. A scalar payload (`""`, `"abc"`, `0`) is not modelled. In the source, PHP 7's `count()` of a scalar is 1, so the missing-data error is not raised; `isset($requestData['id'])` is false; and the `foreach` loops skip a non-array. Such a request reaches the next handler unchecked. Under PHP 8, `count()` of a scalar throws a `TypeError` that no `catch` handles.
- Parameters and payload entries are strings. Null, array and integer-keyed values, and PHP's conversion of numeric string keys to integers, are not modelled.
- The logger call before the missing-rule exception is left out; it has no effect on the outcome.
- `$_SESSION` is the explicit cached-token input and output of `TokenValidation.Invoke`.
- The message text and code of the header, missing-parameter, unknown-parameter and authentication exceptions are parameters. Their class files are not part of this model.
- The validation library's exception is a parameter too: its message as a function of the validator's name, the refusing link and the value, and its code. How a chain passes its name on to its links is the library's business; the model hands the name to the exception.
- The range check `withStatus` applies to a status code is left out; the status is handed back as an integer.
- `HttpStatusCodes.php` holds only constants; 400 and 401 appear as literals.
- The write at line 127 of `RequestDataValidation.php` has no effect on the request; the next handler is not modelled beyond `Next`.
- The next handler is not modelled: `Next` stands for handing the request on. Exceptions that the next handler throws are not modelled either. In the source the `return $next(...)` call sits inside the same `try` block as the checks, so an exception of a class the middleware catches becomes this middleware's own rejection response.
