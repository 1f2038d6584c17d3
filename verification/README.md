# pycharm-bandit core, modelled in Dafny

pycharm-bandit is an IntelliJ/PyCharm plugin that flags insecure Python code and
vulnerable installed packages. This project models two parts of it:

- **The advisory-database matcher** (`SafetyDbChecker`). It turns a constraint
  expression such as `"<1.0.0,>=0.5.0"` into a list of clauses. Each clause is a PEP 440
  relation and a version literal. The matcher then decides whether an installed
  version satisfies every clause of some advisory. This covers `hasMatch` on the lookup
  table and `getMatches` on the detailed database.
- **The detector rules**. Each IntelliJ PSI visitor becomes a pure function from the
  facts it reads about a node to the findings it registers:
  - raw SQL with a quoted `%s` placeholder;
  - the Django `MIDDLEWARE` presence checks;
  - `try/except: continue`;
  - password comparisons open to timing attacks;
  - `ssl.wrap_socket` without a safe protocol version;
  - `pickle.load` and its relatives.

The modules follow the source files:

| module | file | models |
|---|---|---|
| `Wrappers` | wrappers.dfy | `Option` and `Result` |
| `Strings` | strings.dfy | trimming of characters `<= ' '`, whitespace, comma tokenizing, Kotlin `substring` with its bounds failure |
| `Seqs` | seqs.dfy | the loop shapes the source uses: map-or-throw, short-circuit "any", filter-or-throw |
| `SafetyDb` | safety_db.dfy | `SafetyDbChecker` |
| `SafetyDbProperties` | safety_db_properties.dfy | properties of the matcher and the sample data of the package-scan tests |
| `Psi` | psi.dfy | the facts the visitors read about PSI nodes, and the findings they register |
| `DjangoHelpers` | django_helpers.dfy | `inspectStatement` |
| `DjangoRawSql` | django_raw_sql.dfy | `DjangoRawSqlInspection` |
| `DjangoMiddleware` | django_middleware.dfy | `DjangoMiddlewareInspection` |
| `TryExceptContinue` | try_except_continue.dfy | `TryExceptContinueInspection` |
| `TimingAttack` | timing_attack.dfy | `TimingAttackInspection` |
| `SslWrapSocket` | ssl_wrap_socket.dfy | `SslWrapSocketInspection` |
| `PickleLoad` | pickle_load.dfy | `PickleLoadInspection` |

Exceptions the source lets escape become `Result` failures:
- `substring(0, 3)` on a clause shorter than three characters gives `StringIndexOutOfBounds`.
- `error("Package not in database")` gives `PackageNotInDatabase`.

Exceptions the source catches become the value its `catch` returns.

The version comparison `PyRequirementVersionSpec.matches` (PEP 440 ordering) is the
function parameter `sat(relation, literal, installed)`.

Three behaviours of the code are kept as written:
- `inspectStatement` returns false as soon as a quote test runs past the start or end of
  the string, instead of skipping that placeholder (src/main/java/security/helpers/DjangoHelpers.kt:16-18).
- The raw-SQL rule registers one finding per single-quoted placeholder, inside its loop,
  not one per call (src/main/java/security/validators/DjangoRawSqlInspection.kt:47).
- The timing-attack rule checks the right and the left operand separately, so one
  comparison can get two findings (src/main/java/security/validators/TimingAttackInspection.kt:29-36).

## Model

| member | source | states |
|---|---|---|
| SafetyDb.FindFirstNotWhiteSpaceAfter | src/main/java/security/packaging/SafetyDbChecker.kt:100-108 | the result is the least index at or after `beginIndex` holding a non-whitespace character, or the line length when there is none; it lies between `beginIndex` and the length |
| SafetyDb.LookupRelation | src/main/java/security/packaging/SafetyDbChecker.kt:19-29 | the relation found is the one whose operator is the longest operator the clause starts with; `None` exactly when no operator starts the clause |
| SafetyDb.LongestOperatorUnique | src/main/java/security/packaging/SafetyDbChecker.kt:19-29 | at most one relation is the longest operator starting a string, so the three-table lookup is unambiguous |
| SafetyDb.LookupByLeadingCharacters | src/main/java/security/packaging/SafetyDbChecker.kt:86-94 | the three-character table is tried first, then two characters, then one: `===` gives STR_EQ, `<=` gives LTE, a `<` not followed by `=` gives LT; a clause starting with none of `=<>~!` has no relation |
| SafetyDb.ParseVersionSpec | src/main/java/security/packaging/SafetyDbChecker.kt:85-98 | a clause shorter than three characters throws; otherwise `null` iff no operator starts it; otherwise the longest operator, with the version literal after the whitespace that follows it |
| SafetyDb.ParseToken | src/main/java/security/packaging/SafetyDbChecker.kt:80-81 | a token throws exactly when its trimmed form is shorter than three characters |
| SafetyDb.ParseVersionSpecs | src/main/java/security/packaging/SafetyDbChecker.kt:76-83 | one parsed clause per comma token, in order, each the parse of the trimmed token; it throws iff some trimmed token is shorter than three characters |
| SafetyDb.Evaluate | src/main/java/security/packaging/SafetyDbChecker.kt:58-59 | an expression is true iff it parses and every clause is non-null and satisfied; it throws iff parsing throws |
| SafetyDb.HasMatch | src/main/java/security/packaging/SafetyDbChecker.kt:56-63 | false for a package absent from the lookup table; when every entry parses, true iff some entry matches the installed version; an exception only if some entry fails to parse. The early return, which leaves later entries unread, is the contract of `Seqs.FindAny`, its body, and `SafetyDbProperties.FirstMatchingEntryWins` |
| SafetyDb.GetMatches | src/main/java/security/packaging/SafetyDbChecker.kt:65-74 | an error for a package absent from the database; otherwise it throws iff some record's expression fails to parse, and the records returned are exactly the database records whose expression matches. Their order is that of the database, by `Seqs.SelectCons` and `Seqs.SelectAppend` on its body `Seqs.Select` |
| Seqs.FindAny | src/main/java/security/packaging/SafetyDbChecker.kt:57-62 | the early-return loop is true iff some element is true with every earlier element decided, and it throws iff some element throws before any true one |
| Seqs.FindAnyAllDecided | src/main/java/security/packaging/SafetyDbChecker.kt:57-62 | when no element throws, the loop's verdict is exactly "some element is true" |
| Seqs.Select | src/main/java/security/packaging/SafetyDbChecker.kt:67-73 | the filter loop throws iff some element throws, and otherwise keeps exactly the elements whose verdict is true |
| Seqs.SelectCons | src/main/java/security/packaging/SafetyDbChecker.kt:68-71 | one loop step: an exception on the head escapes; otherwise the head, if judged true, comes before the selection from the tail |
| Seqs.SelectAppend | src/main/java/security/packaging/SafetyDbChecker.kt:67-73 | filtering a concatenation gives the concatenation of the filtered parts, so the records keep their original order |
| Seqs.FindAnyAgreesWithSelect | src/main/java/security/packaging/SafetyDbChecker.kt:56-74 | for two lists judged alike position by position: when the filter loop succeeds, the "any" loop is true iff the filtered list is non-empty; when the filter throws, the "any" loop never answers false |
| Seqs.MapOrFail | src/main/java/security/packaging/SafetyDbChecker.kt:78-82 | mapping throws iff some element throws, with that element's error; otherwise the results are pointwise |
| Seqs.MapOrFailAppend | src/main/java/security/packaging/SafetyDbChecker.kt:78-82 | mapping a concatenation succeeds iff both parts do, and then yields the concatenation of their results |
| Strings.TrimBounds | src/main/java/security/packaging/SafetyDbChecker.kt:80 | the kept slice of `trim { it <= ' ' }`: everything before and after it is a character `<= ' '`, and a non-empty slice starts and ends with another character |
| Strings.Split | src/main/java/security/packaging/SafetyDbChecker.kt:79 | there is at least one piece, and no piece contains the separator |
| Strings.JoinSplit | src/main/java/security/packaging/SafetyDbChecker.kt:79 | joining the pieces of a split with the separator restores the original string |
| Strings.Tokenize | src/main/java/security/packaging/SafetyDbChecker.kt:79 | every token is non-empty and free of commas (StringTokenizer skips empty runs) |
| Strings.SingleToken | src/main/java/security/packaging/SafetyDbChecker.kt:79 | a non-empty string without a comma is a single token, itself |
| Strings.Contains | src/main/java/security/validators/TryExceptContinueInspection.kt:31 | Kotlin `contains`: true iff the text occurs at some offset |
| Strings.TokenizeAppend | src/main/java/security/packaging/SafetyDbChecker.kt:79 | the tokens of `a + "," + b` are the tokens of `a` followed by those of `b` |
| Strings.Substring | src/main/java/security/helpers/DjangoHelpers.kt:12 | Kotlin `substring(begin, end)` succeeds iff `0 <= begin <= end <= length`, and then yields those characters |
| SafetyDbProperties.HasMatchAgreesWithGetMatches | src/main/java/security/packaging/SafetyDbChecker.kt:56-74 | when the lookup entries are the `v` fields of the database records and all parse, `hasMatch` is true iff `getMatches` is non-empty |
| SafetyDbProperties.EntryVerdictMeaning | src/main/java/security/packaging/SafetyDbChecker.kt:58-59 | the loop body's verdict on one entry is true iff the entry matches, and it is decided without an exception iff the entry parses |
| SafetyDbProperties.FirstMatchingEntryWins | src/main/java/security/packaging/SafetyDbChecker.kt:57-60 | when the first lookup entry matches, `hasMatch` is true whatever follows, even entries that would throw |
| SafetyDbProperties.ClausesCombineByConjunction | src/main/java/security/packaging/SafetyDbChecker.kt:59 | `a + "," + b` parses iff both halves parse, and matches iff both halves match |
| SafetyDbProperties.UnknownOperatorNeverMatches | src/main/java/security/packaging/SafetyDbChecker.kt:59 | an expression with a clause that parses to `null` never matches |
| SafetyDbProperties.LongestOperatorWins | src/main/java/security/packaging/SafetyDbChecker.kt:87-92 | for every non-empty version literal not starting with whitespace, `<=` followed by it parses as LTE, not LT, and `===` followed by it as STR_EQ, not EQ, each with exactly that literal |
| SafetyDbProperties.LessOrEqualClauseParses | src/main/java/security/packaging/SafetyDbChecker.kt:89-97 | `<=` followed by any non-empty literal not starting with whitespace parses as LTE with exactly that literal |
| SafetyDbProperties.StrictEqualClauseParses | src/main/java/security/packaging/SafetyDbChecker.kt:87-88 | `===` followed by any non-empty literal not starting with whitespace parses as STR_EQ with exactly that literal |
| SafetyDbProperties.GreaterOrEqualClauseParses | src/main/java/security/packaging/SafetyDbChecker.kt:89-97 | `>=` followed by any non-empty literal not starting with whitespace parses as GTE with exactly that literal |
| SafetyDbProperties.WhitespaceAfterOperatorSkipped | src/main/java/security/packaging/SafetyDbChecker.kt:96-97 | `<=`, a space, then any literal not starting with whitespace (such as `"<= 1.0.0"`) parses as LTE with exactly that literal |
| SafetyDbProperties.LessThanClauseParses | src/main/java/security/packaging/SafetyDbChecker.kt:91-97 | any `<` followed by a literal of at least two characters that starts with neither `=` nor whitespace parses to LT with exactly that literal |
| SafetyDbProperties.MalformedClauses | src/main/java/security/packaging/SafetyDbChecker.kt:87-94 | `"1.0"` parses to `null`, while `"<1"` throws |
| SafetyDbProperties.SampleApples | src/test/java/security/packaging/PyPackageSecurityScanTest.kt:23-58 | with the test tables, apples 0.4.0 is reported by the lookup, and the detailed check returns its single record, when 0.4.0 < 0.6.0 |
| SafetyDbProperties.SampleBananas | src/test/java/security/packaging/PyPackageSecurityScanTest.kt:114-132 | bananas 0.6.0 is reported when it is < 1.0.0 and >= 0.5.0; bananas 1.2.0 is not, and its detailed check is empty |
| SafetyDbProperties.SampleUnknownPackage | src/test/java/security/packaging/PyPackageSecurityScanTest.kt:100-112 | the package "good" has no lookup match, and the detailed check throws for it |
| DjangoHelpers.Placeholders | src/main/java/security/helpers/DjangoHelpers.kt:8-9 | the matches of `%s`: exactly the indices where `%s` occurs, strictly increasing |
| DjangoHelpers.QuotedBy | src/main/java/security/helpers/DjangoHelpers.kt:12-15 | the `&&` of the two quote `substring` tests throws iff the preceding index is out of range, or that character is the quote and the following one is out of range; true iff both neighbours are the quote |
| DjangoHelpers.PlaceholderStep | src/main/java/security/helpers/DjangoHelpers.kt:11-18 | one loop iteration returns true iff the placeholder is wrapped in matching single or double quotes, and returns false iff one of the quote tests throws first |
| DjangoHelpers.Scan | src/main/java/security/helpers/DjangoHelpers.kt:10-21 | the loop is true iff some placeholder's step returns true and every earlier step continued; running out of placeholders gives false |
| DjangoHelpers.InspectStatement | src/main/java/security/helpers/DjangoHelpers.kt:6-21 | false for a non-literal; otherwise true iff some placeholder is quoted and every earlier placeholder was passed over without an exception |
| DjangoHelpers.InspectStatementByPositions | src/main/java/security/helpers/DjangoHelpers.kt:6-21 | the scan is true iff there is a first quoted placeholder, stated by string positions alone; a string without `%s` gives false |
| DjangoHelpers.LeadingPlaceholderAborts | src/main/java/security/helpers/DjangoHelpers.kt:12-18 | a placeholder at index 0 makes the result false, even when a later placeholder is quoted |
| DjangoHelpers.QuoteAtEndAborts | src/main/java/security/helpers/DjangoHelpers.kt:12-18 | a quote-preceded placeholder that ends the string aborts the scan with false |
| DjangoHelpers.SinglePlaceholder | src/main/java/security/helpers/DjangoHelpers.kt:10-21 | for a string with one placeholder, the result is whether it is wrapped in matching quotes |
| DjangoHelpers.QuotedExamples | src/main/java/security/helpers/DjangoHelpers.kt:12-15 | `id='%s'` and `id="%s"` are flagged |
| DjangoHelpers.UnquotedExamples | src/main/java/security/helpers/DjangoHelpers.kt:12-15 | mixed quotes `id='%s"` and an unquoted `id=%s` are not flagged |
| DjangoRawSql.SingleQuotedRun | src/main/java/security/validators/DjangoRawSqlInspection.kt:39-46 | the number of leading placeholders each wrapped in single quotes, stopping at the first that is not |
| DjangoRawSql.Inspect | src/main/java/security/validators/DjangoRawSqlInspection.kt:26-48 | no finding unless the callee name is `RawSQL`, `raw` or `execute`, the file is a Python file importing django, and the first argument is a string literal; otherwise one finding per placeholder in the longest single-quoted prefix |
| DjangoRawSql.FindingsImplyInspectStatement | src/main/java/security/validators/DjangoRawSqlInspection.kt:37-46 | a raw-SQL finding implies the shared helper would also flag the statement |
| DjangoRawSql.DoubleQuotedFirstPlaceholder | src/main/java/security/validators/DjangoRawSqlInspection.kt:41-42 | a double-quoted first placeholder gives no raw-SQL finding, though the shared helper flags it |
| DjangoMiddleware.StringValues | src/main/java/security/validators/DjangoMiddlewareInspection.kt:34 | a string is among the values iff it is the value of a string-literal element; other elements are ignored |
| DjangoMiddleware.Inspect | src/main/java/security/validators/DjangoMiddlewareInspection.kt:27-41 | no finding outside `settings.py`, in a docstring, or unless `MIDDLEWARE` is assigned a list literal; otherwise each of the two findings is raised iff its middleware path is absent, with a fixer carrying that path, at most two, CSRF first |
| DjangoMiddleware.FixRemovesFinding | src/main/java/security/validators/DjangoMiddlewareInspection.kt:36-41 | inserting the path that a finding's fixer carries removes that finding and leaves the other one unchanged |
| DjangoMiddleware.CompleteAndEmptyLists | src/main/java/security/validators/DjangoMiddlewareInspection.kt:36-41 | a list with both paths gives no finding; an empty list gives both, CSRF first |
| TryExceptContinue.Flagged | src/main/java/security/validators/TryExceptContinueInspection.kt:36-41 | an except part is flagged iff it has a statement list, its first statement list holds only `continue` and comments, and it has no exception class or the class `Exception` |
| TryExceptContinue.FirstStatementList | src/main/java/security/validators/TryExceptContinueInspection.kt:37-38 | the statements of the first statement-list child, and none iff no child is a statement list |
| TryExceptContinue.HasOtherStatement | src/main/java/security/validators/TryExceptContinueInspection.kt:40 | true iff some statement is neither `continue` nor a comment |
| TryExceptContinue.Inspect | src/main/java/security/validators/TryExceptContinueInspection.kt:28-43 | none in a docstring or in a file whose name contains `test`; otherwise exactly one weak warning per flagged except part, at that part, in order |
| TryExceptContinue.FlaggedExamples | src/main/java/security/validators/TryExceptContinueInspection.kt:36-41 | an empty first statement list is flagged, and so is `except Exception:` with a comment and `continue`; `except ValueError: continue`, a body with another statement, and a part without a statement list are not flagged |
| TimingAttack.Inspect | src/main/java/security/validators/TimingAttackInspection.kt:25-41 | nothing unless both operands exist and the operator is `==` or `!=`; then one compare-digest warning for each operand that is a reference named in the password list |
| TimingAttack.InspectSymmetric | src/main/java/security/validators/TimingAttackInspection.kt:29-36 | swapping the operands does not change the findings |
| TimingAttack.MembershipNotSubstring | src/main/java/security/validators/TimingAttackInspection.kt:39-41 | `password_hash` is not a password name when only `password` is listed; `password == password` is reported twice; `<` is never reported |
| SslWrapSocket.KeywordArgumentValue | src/main/java/security/validators/SslWrapSocketInspection.kt:34 | the value of the first keyword argument with the given name, or none if there is no such argument |
| SslWrapSocket.Inspect | src/main/java/security/validators/SslWrapSocketInspection.kt:26-53 | nothing unless the call is `ssl.wrap_socket` outside a docstring; at most two findings; a no-version finding iff there are no arguments, or `ssl_version` is absent in a non-Python file or below Python 3.6, or it is `None`; a bad-protocol finding iff `ssl_version` names a listed protocol, and for a reference-valued `ssl_version` exactly that one finding or none |
| SslWrapSocket.NoArgumentsReported | src/main/java/security/validators/SslWrapSocketInspection.kt:31-44 | a call without arguments gives two findings when the file lacks secure defaults and one in a Python file at 3.6 or later |
| SslWrapSocket.MissingVersionReported | src/main/java/security/validators/SslWrapSocketInspection.kt:34-44 | with arguments but no `ssl_version`, one no-version finding when the file lacks secure defaults (a non-Python file, or below Python 3.6) and none in a Python file at 3.6 or later |
| SslWrapSocket.NoneVersionReported | src/main/java/security/validators/SslWrapSocketInspection.kt:46-47 | `ssl_version=None` gives exactly one no-version finding at any language level |
| SslWrapSocket.UnresolvedReferenceReadsAsNull | src/main/java/security/validators/SslWrapSocketInspection.kt:49-53 | `asQualifiedName().toString()` of a reference without a qualified name is the text `"null"` (`QualifiedNameText`), so such an `ssl_version` is reported exactly when the list holds `"null"` |
| SslWrapSocket.LaterLevelNeverAddsFindings | src/main/java/security/validators/SslWrapSocketInspection.kt:39-44 | raising the file's language level never increases the number of findings |
| PickleLoad.Inspect | src/main/java/security/validators/PickleLoadInspection.kt:24-29 | at most one finding, without a fixer; one iff the callee has a name and the qualified name resolves to one of the eight listed names |
| PickleLoad.NamesAreModuleTimesLoader | src/main/java/security/validators/PickleLoadInspection.kt:25 | the listed names are exactly `pickle`/`cPickle` combined with `load`/`loads`/`_load`/`_loads` |
| PickleLoad.NotReported | src/main/java/security/validators/PickleLoadInspection.kt:25-28 | `pickle.dumps` is not reported, and neither is a call whose callee has no name |

## Left out

- SafetyDb.ParseVersionSpec: strings are sequences of Unicode characters, not UTF-16 code units, so the three-character test differs from Kotlin's `substring(0, 3)` for clauses holding characters outside the Basic Multilingual Plane (`"<\u{1F600}"` is three units in Kotlin and parses as LT, but two characters here and throws). `SafetyDb.ParseToken` and `SafetyDb.ParseVersionSpecs` inherit this difference.
- PEP 440 version ordering (`PyRequirementVersionSpec.matches`) and `pyRequirementVersionSpec` are IntelliJ library code. The comparison is the parameter `sat`. A clause is the pair of its relation and its literal. An operator's width is the length of its spelling.
- Loading the two JSON tables with Gson and the classpath readers is I/O. The tables are `map`s given as inputs.
- `StringUtil.tokenize` is modelled as a comma split that drops empty tokens, as `java.util.StringTokenizer` does.
- `StringUtil.isWhiteSpace` is modelled as space, tab and newline.
- The PSI helpers are outside this model. They become facts about the node:
  - `skipDocstring` becomes a boolean;
  - `hasImportedNamespace(file, "django")` becomes a boolean;
  - `calleeMatches` and `qualifiedNameMatches` become equality of the resolved callee name and of the qualified name;
  - `getQualifiedName` becomes an optional qualified name;
  - the file's language level becomes a (major, minor) pair.
- `PasswordVariableNames` and `BadSSLProtocols` are not part of this model. They are parameters of the rules that use them.
- A null containing file is modelled per rule. In the middleware rule the assignment's file is an `Option`, and a missing file gives no finding. The raw-SQL and ssl rules only test whether the file is a Python file, which a null file fails; the model covers that case with `isPyFile == false`. The try/except rule reads the file's name with no check, so its nodes always carry a file name.
- The quick-fixers are not modelled. The middleware fixer appears only as the path it carries. `FixRemovesFinding` states what inserting that path does.
- Description texts, `renderMessage` and the highlight level of each finding are not modelled. Only the check, the fixer and the weak-warning flag are kept.
- The raw-SQL inspection's static description points at the clickjacking check. That is a text matter and is not modelled.
- The inspection dispatch framework, the settings pane, the package scan, the actions and the startup task are IDE orchestration and are not modelled.

