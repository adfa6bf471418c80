# Redaction of personal data in log lines — a Dafny model of `filter_datum`

The personal-data logger rewrites log messages of the form
`key=value;key=value;...` so that the values of sensitive fields (by default
`name`, `email`, `ssn`, `password`) are replaced by the token `***`. The work
is done by `filter_datum(fields, redaction, message, separator)`, which, for
each field name `f`, runs `re.sub(f'{f}=.*?{separator}', f'{f}={redaction}{separator}', message)`.

This project models that function and proves what it does.

- `Pattern` (`pattern.dfy`): the fixed pattern shape `f=.*?sep`, that is, a
  literal `f`, a literal `=`, the shortest newline-free run, and then the
  separator. `ValueLen` and `MatchLen` compute the match at the front of a
  text. Their contracts tie them to a declarative reading of the pattern:
  `EndsValue` and `MatchesAt`, with the shortest match chosen because the
  quantifier is non-greedy.
- `Substitution` (`substitution.dfy`): `SubOne` is one `re.sub` pass. It
  scans left to right, rewrites the leftmost match, resumes after the
  consumed separator, and copies every other character. The lemmas cover
  the unchanged text before a match, the in-place rewrite of each match,
  pass-through when nothing matches, idempotence and the separator count.
- `Records` (`records.dfy`): a log line built from `key=value<sep>` fields.
  It gives an independent reference definition of a pass on such lines. A field is
  redacted exactly when its key ENDS WITH the field name, because the
  pattern is not anchored: `name` also hits `username`.
- `FilteredLogger` (`filtered_logger.dfy`) covers `filter_datum` twice:
  - `FilterDatum` is the function as written. Every iteration reads the
    original `message`, so only the last field name counts. With no field
    names, `msg` is never bound and Python raises `UnboundLocalError`; the
    `Outcome` datatype models that error.
  - `FilterAll` is the accumulating loop the function is evidently meant to
    be.
- `Examples` (`examples.dfy`): worked lines, and the default field names on
  a four-field line.

Three points where the code differs from what its purpose suggests:
- Redaction is expected never to fail, but the code raises
  `UnboundLocalError` when `fields` is empty. `FilterDatum` models that
  error.
- Fields are meant as `key=value` pairs, but the pattern is not anchored.
  It also matches `field=` at the end of a longer key, and `Selects`
  models that.
- The accumulating loop is evidently what was meant. `FilterDatum` keeps
  the code as written, and `FilterAll` is the corrected loop.

Domain of the model (`Substitution.InDomain`):
- The field name and the separator contain no regular-expression
  metacharacter, so they stand for themselves in the pattern.
- The token contains no backslash, so it stands for itself in the
  replacement.
- The separator is one character. The logger uses `;`.

## Model

| member | source | states |
|---|---|---|
| `Pattern.ValueLen` | 0x00-personal_data/filtered_logger.py:22 | `.*?sep` takes the shortest newline-free run that a separator closes. It fails exactly when no separator comes before a newline or the end. |
| `Pattern.MatchLen` | 0x00-personal_data/filtered_logger.py:22 | At the front of a text the pattern `f=.*?sep` matches with the shortest length `n` such that the text starts with `f=` and then a newline-free value closed by the separator. None means no length matches. |
| `Pattern.MatchOfField` | 0x00-personal_data/filtered_logger.py:22 | `f=` followed by a value with no separator or newline, then the separator, matches with exactly that length. |
| `Pattern.NewlineBlocksMatch` | 0x00-personal_data/filtered_logger.py:22 | A value cannot run across a newline. If a newline comes after `f=` before any separator, no match starts there. |
| `Substitution.SubOne` | 0x00-personal_data/filtered_logger.py:22-23 | One `re.sub` pass. If the token holds no separator, the output has as many separators as the input: each match consumes one separator and puts one back. |
| `Substitution.SkipUnmatched` | 0x00-personal_data/filtered_logger.py:22-23 | Text before the first match is copied unchanged, and the scan continues from there. |
| `Substitution.NoMatchIdentity` | 0x00-personal_data/filtered_logger.py:22-23 | If the pattern matches at no position, the output equals the input. |
| `Substitution.NoSeparatorUnchanged` | 0x00-personal_data/filtered_logger.py:22-23 | A message without the separator passes through, including a trailing `f=x` with no separator. |
| `Substitution.NoFieldUnchanged` | 0x00-personal_data/filtered_logger.py:22-23 | A message in which `f=` never occurs passes through. |
| `Substitution.RewriteMatch` | 0x00-personal_data/filtered_logger.py:22-23 | `f=<value><sep>` becomes `f=<token><sep>`. The name, the `=` and the separator stay. The match ends at the first separator, and the text after it is scanned again. |
| `Substitution.RewriteFirstMatch` | 0x00-personal_data/filtered_logger.py:22-23 | A match after unmatched text gives the unchanged prefix, then the rewritten field, then the pass over what follows. |
| `Substitution.NoMatchPreserved` | 0x00-personal_data/filtered_logger.py:22-23 | Rewriting never creates a match where the original text had none, whatever text comes before it. |
| `Substitution.SubOneIdempotent` | 0x00-personal_data/filtered_logger.py:22-23 | If the token holds no separator and no newline, a second pass with the same arguments changes nothing. |
| `Records.RedactFields` | 0x00-personal_data/filtered_logger.py:22-23 | The reference pass on a record line. The same fields stay in the same order. A field gets the token exactly when its key ends with the field name, and the other fields keep their values. |
| `Records.SubOneOnRecordsThen` | 0x00-personal_data/filtered_logger.py:22-23 | On a well-formed record line followed by any text, one pass redacts the line's fields as `RedactFields` does and then carries on into the text. |
| `Records.UnterminatedLastField` | 0x00-personal_data/filtered_logger.py:22-23 | If the last field has no closing separator, as on lines joined with the separator between fields (filtered_logger.py:92), that field is never redacted, whatever its key. The fields before it are redacted as usual. |
| `Records.SubOneOnRecords` | 0x00-personal_data/filtered_logger.py:22-23 | On a well-formed `key=value<sep>` line, one pass produces the line of `RedactFields`. Each field whose key ends with the name is redacted, and all other fields are unchanged. |
| `FilteredLogger.FilterDatum` | 0x00-personal_data/filtered_logger.py:18-24 | With no field names the call ends in `UnboundLocalError`. Otherwise it returns the pass for the LAST field name on the original message, and earlier passes are discarded. |
| `FilteredLogger.FilterAll` | 0x00-personal_data/filtered_logger.py:21-24 | The corrected, accumulating loop. It never creates or loses a separator when the token holds none. |
| `FilteredLogger.FilterAllSingleField` | 0x00-personal_data/filtered_logger.py:21-24 | With one field name the corrected loop agrees with the loop as written. |
| `FilteredLogger.FilterDatumOnRecords` | 0x00-personal_data/filtered_logger.py:21-24 | On a record line, the pass for the last field name redacts only the fields that name selects. `FilterDatum`'s postcondition says its result is exactly this pass, so the loop as written redacts only those fields. |
| `FilteredLogger.RedactAll` | 0x00-personal_data/filtered_logger.py:21-24 | The reference result of the corrected loop on a record line. The same fields stay in the same order. A field gets the token exactly when some listed name selects its key, and the other fields keep their values. |
| `FilteredLogger.FilterAllOnRecords` | 0x00-personal_data/filtered_logger.py:21-24 | On a record line the corrected loop redacts exactly the fields that some listed name selects, and leaves every other field unchanged. |
| `FilteredLogger.FilterAllOrderIndependent` | 0x00-personal_data/filtered_logger.py:21-24 | On a record line, field lists that name the same fields in any order, with any repetition, give the same result. |
| `FilteredLogger.FilterAllRedactsEveryField` | 0x00-personal_data/filtered_logger.py:21-24 | After the corrected loop, a further pass for any listed field changes nothing, so every listed field is fully redacted. |
| `FilteredLogger.FilterAllIdempotent` | 0x00-personal_data/filtered_logger.py:21-24 | On a record line, running the corrected loop again with the same field names and token on its own output changes nothing. |
| `Examples.RepeatedField` | 0x00-personal_data/filtered_logger.py:22-23 | All non-overlapping matches are rewritten, left to right: `name=a;name=b;` becomes `name=***;name=***;`. |
| `Examples.OtherFieldKept` | 0x00-personal_data/filtered_logger.py:22-23 | `user=42;name=Jane;` becomes `user=42;name=***;`. |
| `Examples.SuffixOfKeyMatches` | 0x00-personal_data/filtered_logger.py:22-23 | The pattern is unanchored, so the field `name` rewrites `username=bob;` to `username=***;`. |
| `Examples.DefaultsUsable` | 0x00-personal_data/filtered_logger.py:15 | The default field names `name`, `email`, `ssn`, `password` and the token `***` fall inside the modelled domain. The list ends with `password` and contains all four names. So the defaults meet the requirements of the lemmas below. |
| `Examples.AsWrittenRedactsOnlyPassword` | 0x00-personal_data/filtered_logger.py:18-24 | For any field list ending in `password`, such as the defaults, the loop as written redacts only the password of a `name/email/ssn/password` line, whatever the values are. |
| `Examples.DefaultNamesSelectAll` | 0x00-personal_data/filtered_logger.py:15-24 | If the list contains the four default names, every field of a `name/email/ssn/password` record is selected by some listed name. |
| `Examples.CorrectedRedactsAll` | 0x00-personal_data/filtered_logger.py:15-24 | If the list contains the four default names, the corrected loop redacts all four values of such a line. |
| `Examples.AsWrittenLeaksName` | 0x00-personal_data/filtered_logger.py:15-24 | Take a list that ends in `password` and also contains `name`, `email` and `ssn`, and a name value whose first character differs from the token's. Then the two loops give different outputs: the loop as written still shows the name's first character after `name=`. |

## Findings

| source | as written | input that shows it | evidently intended | confidence | as-written member | corrected member |
|---|---|---|---|---|---|---|
| 0x00-personal_data/filtered_logger.py:21-24 | Each iteration substitutes into the original `message` and overwrites `msg`, so only the last field name is redacted | fields `("name", "email", "ssn", "password")`, message `name=John;email=john@x.com;ssn=123;password=abc;`: the result is `name=John;email=john@x.com;ssn=123;password=***;` | Every listed field is redacted: `name=***;email=***;ssn=***;password=***;` | high; not executed | `FilteredLogger.FilterDatum`, `Examples.AsWrittenLeaksName` | `FilteredLogger.FilterAll`, `FilteredLogger.FilterAllRedactsEveryField` |

## Left out

- `get_logger` (filtered_logger.py:27-38) is left out. It only configures Python's `logging` module, so it has no logic of its own.
- `get_db` (filtered_logger.py:41-52) is left out. It reads environment variables and opens a MySQL connection, which is I/O through a foreign client.
- `RedactingFormatter` (filtered_logger.py:55-70) is left out. Its template expansion and timestamps belong to the logging library. As written its `format` would also fail, because `__init__` never stores `fields`.
- `main` (filtered_logger.py:73-96) is left out. It only iterates a database cursor and logs rows, which is I/O.
- General regular-expression semantics are left out. The model covers only the fixed `f=.*?sep` shape. Field names or separators containing metacharacters, and tokens containing backslashes, which `re.sub` would read as escapes, are outside `InDomain`.
- Lines whose last field has no closing separator are only partly covered. The lines built at filtered_logger.py:92 join fields with `; `, so the last field has no separator after it. The record lemmas cover lines where every field ends with the separator. `Records.UnterminatedLastField` shows that the unterminated last field is never redacted.
- Separators longer than one character are not modelled. The separator is a `char`, as the logger's `;` is.
- `FilterDatum` and `FilterAll` are modelled on Dafny strings of characters. Python's type checks on non-string arguments are not modelled.
- `Records.SubOneOnRecords`, `FilteredLogger.FilterAllOnRecords` and the lemmas built on them assume a well-formed record line. Keys and values hold no `=`, separator or newline; field names hold no `=` or separator; and the separator is not `=`. On other text only the general `Substitution` lemmas apply.
