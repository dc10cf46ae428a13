# Response-header validation of the users API test suite

This project models the two pieces of logic that the users API test suite owns
itself, and proves their properties in Dafny.

- **The header validator** (`ITestValidation.checkExpectedHeaders` and
  `dynamicValueMatches`), in `validation.dfy`, module `Validation`. Every
  expected header is looked up in the headers actually received:
  - an absent name is recorded as missing;
  - a value that starts with the reserved indicator `matchesPattern:` has every
    occurrence of the indicator removed, and the rest is compiled as a regular
    expression that must match the whole actual value;
  - any other value must equal the actual value.

  Failures are collected, not short-circuited, and the check fails at the end
  only if at least one record was collected. A pattern that does not compile
  aborts the whole check. Headers that were received but not expected are
  ignored.
- **Header flattening in `ServiceResponse`**, in `response.dfy`, module
  `Response`. The transport's list of (name, value) headers is put, in order,
  into a map, so a repeated name keeps the value of its last occurrence. The
  map is built once by the constructor; the suite only reads it afterwards
  (`getHeaders`).
- **The suite's fixtures**, in `scenarios.dfy`, module `UsersApiScenarios`. The
  expected-header maps of `GetUsersDataProvider` are stated as lemmas about the
  validator. The positive fixture passes. The deliberately failing one
  reports exactly its three planted failures. An invalid pattern aborts. A
  header sent twice is judged by its last value.

Modelling choices:
- The regular-expression engine is a parameter, `RegexEngine(compiles,
  fullMatch)`. It is two arbitrary functions: whether a pattern source is
  well-formed (`Pattern.compile` does not throw), and whether it matches the
  whole of a string (`Matcher.matches()`, anchored at both ends). Nothing about
  regular expressions is assumed beyond that. Lemmas about concrete patterns
  state what they need of the engine as preconditions.
- The expected entries are visited in an unspecified order. The method picks
  the next name with `:|`. Its contract (`Reports`) does not depend on the
  order: the set of recorded names equals the set of failing entries, each
  record is the verdict of the entry it names, and no name is recorded twice.
  Which bad pattern is reported, when there are several, depends on the order.
  The contract only says it is one of them.
- Java's exceptions become values. `HeaderCheck.Failed` is the assertion
  failure raised at the end. `HeaderCheck.PatternSyntaxError` is the
  rethrown `PatternSyntaxException`. `dynamicValueMatches` returns `None`
  for it.
- Mismatch records are structured (`Missing`, `PatternMismatch`,
  `ValueMismatch`, carrying the name, pattern or expected value, and actual
  value) instead of formatted message strings.
- `replace` (`ITestValidation.java:41`) removes every occurrence of the
  indicator, not only a leading one. `ExtractPatternRemovesEveryIndicator`
  shows a value where this differs from a prefix strip.
  `ExtractPatternStripsPrefix` shows that the two agree when the indicator is
  not repeated, as in every fixture.

## Model

| member | source | states |
|---|---|---|
| `Validation.IsPatternValue` | src/test/java/reqres/ITestValidation.java:39 | Pattern kind exactly when the expected string starts with the indicator; such a value is the indicator followed by the rest, so the indicator occurs in it |
| `Validation.ExtractPattern` | src/test/java/reqres/ITestValidation.java:41 | The compiled pattern is the expected value with every indicator removed: never longer than the value, at least the leading indicator shorter for a pattern-kind value, and the value itself when it holds no indicator |
| `Validation.RemoveAll` | src/test/java/reqres/ITestValidation.java:41 | Removing every occurrence of the indicator never lengthens the string, and leaves a string without an occurrence unchanged (with `RemovesLeftmost`, this determines the result on every input) |
| `Validation.RemovesLeftmost` | src/test/java/reqres/ITestValidation.java:41 | The leftmost occurrence of the indicator is removed, the text before it is kept, and removal continues after it, left to right without overlap; with `RemoveAll`'s no-occurrence case this determines the extracted pattern for every value |
| `Validation.LeadingIndicatorDropped` | src/test/java/reqres/ITestValidation.java:41 | A leading indicator is removed and extraction continues on the rest of the value |
| `Validation.ExtractPatternStripsPrefix` | src/test/java/reqres/ITestValidation.java:39-41 | For a pattern-kind value whose rest does not repeat the indicator, the compiled pattern is exactly the text after the indicator |
| `Validation.ExtractPatternRemovesEveryIndicator` | src/test/java/reqres/ITestValidation.java:41 | A repeated indicator is removed too (`replace`, not a one-time prefix strip), so the compiled pattern differs from what a prefix strip gives |
| `Validation.DynamicValueMatches` | src/test/java/reqres/ITestValidation.java:60-70 | The syntax-error outcome occurs exactly when the pattern does not compile; otherwise the result is whether the whole actual value matches |
| `Validation.JudgeEntry` | src/test/java/reqres/ITestValidation.java:30-52 | A failure verdict for an entry always carries that entry's header name |
| `Validation.AbsentHeaderIsMissing` | src/test/java/reqres/ITestValidation.java:31-36 | An entry is recorded as missing exactly when its name is absent, and then the verdict does not depend on the regex engine or the expected value, so no pattern or literal check is done |
| `Validation.LiteralVerdict` | src/test/java/reqres/ITestValidation.java:46-51 | For a literal-kind value: a match exactly when expected equals actual, and a value mismatch carrying name, expected and actual exactly when they differ |
| `Validation.PatternVerdict` | src/test/java/reqres/ITestValidation.java:39-45 | For a pattern-kind value: abort exactly when the extracted pattern does not compile; a match exactly when it compiles and fully matches; a pattern mismatch carrying name, pattern and actual exactly when it compiles and does not fully match |
| `Validation.CheckExpectedHeaders` | src/test/java/reqres/ITestValidation.java:23-58 | The outcome satisfies `Reports`, whatever the visiting order. It is an abort naming an entry with an invalid pattern. Or it is a pass with no failing entry. Or it is a failure whose records name exactly the failing entries, each once, each being that entry's verdict |
| `Validation.RecordCountBound` | src/test/java/reqres/ITestValidation.java:25-53 | A failed check holds exactly one record per failing entry, so it never has more records than there are expected entries |
| `Validation.EveryFailureRecorded` | src/test/java/reqres/ITestValidation.java:28-53 | No short-circuit: every failing expected entry's record is in the failure list, regardless of the other entries |
| `Validation.AbortsOnlyOnBadPattern` | src/test/java/reqres/ITestValidation.java:55-69 | The check aborts exactly when some received pattern-kind entry has a pattern that does not compile. The abort names such an entry and its extracted pattern. The check passes exactly when it does not abort and no entry fails |
| `Validation.PassesIffAllMatch` | src/test/java/reqres/ITestValidation.java:55-57 | The check passes exactly when every expected entry matches its actual header |
| `Validation.OnlyExpectedNamesMatter` | src/test/java/reqres/ITestValidation.java:27-32 | Two actual header maps that agree on the presence and value of every expected name give the same possible outcomes |
| `Validation.ExtraHeaderIgnored` | src/test/java/reqres/ITestValidation.java:27-32 | Adding or changing a header that is not expected never changes the outcome |
| `Response.PutAll` | src/test/java/util/ServiceResponse.java:30-32 | The `put`s, in list order, never remove a name, and every entry afterwards is either unchanged from the starting map or one of the listed headers |
| `Response.Flatten` | src/test/java/util/ServiceResponse.java:30-33 | The map `put` builds, in list order, from an empty map: every stored value was received under its name |
| `Response.PutAllOneMore` | src/test/java/util/ServiceResponse.java:32 | Processing one more header maps its name to its value and leaves every other name as it was |
| `Response.PutAllKeys` | src/test/java/util/ServiceResponse.java:30-32 | The names in the map after the puts are the names before plus the names in the list |
| `Response.FlattenKeys` | src/test/java/util/ServiceResponse.java:30-33 | The flattened map's names are exactly the names in the raw header list, and an empty list gives an empty map |
| `Response.PutAllUntouched` | src/test/java/util/ServiceResponse.java:32 | A name that does not occur in the list keeps the value it had before the puts |
| `Response.PutAllLastWins` | src/test/java/util/ServiceResponse.java:32 | After the puts, the last occurrence of a name determines its value |
| `Response.LastWriteWins` | src/test/java/util/ServiceResponse.java:30-33 | In the flattened map, a name that occurs several times has the value of its last occurrence |
| `Response.ServiceResponse.constructor` | src/test/java/util/ServiceResponse.java:26-42 | The header loop builds exactly the flattened map of the transport's header list. It is stored with the status line and the body |
| `Response.ServiceResponse.GetHeaders` | src/test/java/util/ServiceResponse.java:55-57 | The map returned has exactly the received names, each with the value of its last occurrence. The map is the one the constructor built; the model has no operation that changes it afterwards (see Left out) |
| `UsersApiScenarios.FixturePatternsExtracted` | src/test/java/reqres/model/GetUsersDataProvider.java:49-78 | The date, age and wrong-age fixture patterns are compiled exactly as written after the indicator |
| `UsersApiScenarios.PositiveFixtureEntriesMatch` | src/test/java/reqres/model/GetUsersDataProvider.java:36-52 | Given an engine that matches the date and the age, every entry of the positive fixture matches a typical response |
| `UsersApiScenarios.PositiveFixturePasses` | src/test/java/reqres/UsersApiTestSuite.java:89 | The positive fixture's header check passes on a typical response that also carries an unexpected header |
| `UsersApiScenarios.DeliberateFailMatchingEntries` | src/test/java/reqres/model/GetUsersDataProvider.java:65-77 | Given an engine that matches the date, every entry of the deliberately failing fixture other than content type, the faked header and age matches a typical response |
| `UsersApiScenarios.DeliberateFailFailingEntries` | src/test/java/reqres/model/GetUsersDataProvider.java:67-78 | In the deliberately failing fixture, the content type is a value mismatch carrying both values, the faked header is missing, and the wrong age pattern is a pattern mismatch carrying pattern and actual age |
| `UsersApiScenarios.DeliberateFailFailingNames` | src/test/java/reqres/model/GetUsersDataProvider.java:63-80 | The deliberately failing fixture does not abort, and its failing entries are exactly content type, the faked header and age |
| `UsersApiScenarios.DeliberateFailReportsThree` | src/test/java/reqres/UsersApiTestSuite.java:123 | The deliberately failing check fails with exactly three records: the content-type value mismatch, the missing header and the age pattern mismatch |
| `UsersApiScenarios.InvalidPatternAborts` | src/test/java/reqres/ITestValidation.java:64-69 | An expected pattern `[` under a received header aborts the check naming that header and pattern, instead of being recorded |
| `UsersApiScenarios.MissingHeaderNeverCompiled` | src/test/java/reqres/ITestValidation.java:33-36 | The same invalid pattern under a header that was not received yields only a single missing record: it is never compiled |
| `UsersApiScenarios.RepeatedHeaderJudgedByLastValue` | src/test/java/util/ServiceResponse.java:30-33 | A header sent twice reaches the validator with its last value. An age sent first as `abc` and then as `1858` passes the age pattern |

## Left out

- The regular-expression engine (`Pattern.compile`, `Matcher.matches`) is not implemented. It is the `RegexEngine` parameter. Facts about concrete patterns are preconditions of the lemmas that need them.
- Logging of the bad pattern (`logError`) is a no-op. The exact failure-message text (`String.format`, `StringUtils.join`) is replaced by structured records.
- Header values are modelled as strings. The source's maps hold `Object` values, but the only producer puts `String`s there, and `toString()` and `equals` on strings are identity and content equality. A `null` value stored under a present name is not modelled; the source would report it missing.
- Iteration order of the expected map is unspecified in the source. The model chooses names nondeterministically, and its properties are stated over sets of names, not positions in the record list.
- The HTTP transport, the status line and the body capture (`EntityUtils.toString`, with its logged and rethrown `IOException`) are not modelled. The constructor takes the status line and the already-read body as parameters.
- `getHeaders` returns the response's own mutable `HashMap` (`ServiceResponse.java:23`, `33`, `55-57`); `final` fixes only the reference, so a caller could change the stored headers. The model returns an immutable map value. The suite's callers only read it (`UsersApiTestSuite.java:73`, `89`, `115`, `123`) and `checkExpectedHeaders` only looks names up, so aliasing and later mutation are not modelled.
- `getStatusCode`, `getStatusText` and `getBody` are plain reads of final fields. They are represented by the constant fields `statusLine` and `rawResponse`, not by separate members.
- JSON body comparison is delegated to an external library (array-order-insensitive diff with a difference listener). It is not part of this model. Fixture file loading, JSON parsing, JUnit orchestration (`assertAll`, status assertions, setup and teardown) and the `IServiceResponse` interface are not part of this model either.
