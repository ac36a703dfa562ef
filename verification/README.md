# customfield_dynamic: the field controller, in Dafny

`customfield_dynamic` is a Moodle custom field. It offers a drop-down menu whose
entries come from an SQL query that an administrator writes in the field's settings.
This project models the three pieces of logic in the field controller
(`classes/field_controller.php`) and proves properties about them:

- **`sanitize_sql`** is the query safety filter (`sanitizer.dfy`). The query is
  lower-cased, and every run of `\s` characters becomes one space. It is then
  refused if:
  - one of eleven forbidden keywords occurs in it as a whole word;
  - it holds a `;`;
  - its trimmed text does not start with `select`.

  `IsSafeSql` states the verdict. The method `SanitizeSql` has the source's loop
  over the keywords and is proved equal to `IsSafeSql`.
- **`config_form_validation`** checks the settings form (`validation.dfy`). The
  query must be set and safe, and it must run. Its first record must have `id` and
  `data` properties. For a single-select field, a non-empty default value must be
  one value and the `id` of some record. The result maps a form element to an
  error kind, and it holds at most one entry.
- **`get_options_array`** builds the menu (`options.dfy`). Each record's formatted
  key maps to its formatted `data`, and a later record with the same key replaces
  the value in place. The placeholder `'' => choose` goes in front with PHP's array
  union. The `foreach` is the method `FillOptions`. It is proved against the
  function `Latest`, which gives the last record with a given key. It is also proved
  against `FirstOccurrences`, which gives the key order: each key at the place where
  a record first produces it.

Supporting modules:

- `php_strings.dfy` holds the PHP string built-ins the controller calls:
  - `strtolower`, ASCII only;
  - the PCRE classes `\s` and `\w`;
  - `trim` with its default character list;
  - `stripos(...) === 0`;
  - `explode`/`implode` on `,`;
  - `empty()`.
- `php_arrays.dfy` models string-keyed PHP arrays as sequences of key/value pairs
  with unique keys. Assignment `$a[$k] = $v` is `Put`, and the union `$l + $r` is
  `Union`.
- `data_source.dfy` describes what the database layer hands back: an exception
  with its message, or the records in order.

The database is not modelled: its answer is an input value. The same holds for
`format_string` (a function parameter) and the localised "Choose..." label (a
parameter). A `get_string` message is represented by its `ErrorKind`, with the
message's arguments.

Where the code and the plugin's documented behaviour differ, the model follows the
code:

- An empty result set is reported with the `queryerrorfalse` message, because an
  empty array is falsy in PHP. The `count($resultset) == 0` branch with
  `queryerrorempty` can never be reached (`QueryEmptyUnreachable`).
- Validation stops at the first failure. At most one error is returned
  (`ConfigFormValidation`'s `|err| <= 1`), and a query error excludes any
  default-value error (`QueryErrorExcludesDefault`).
- `get_options_array` runs the configured query without passing it through the
  filter.

## Model

| member | source | states |
|---|---|---|
| Sanitizer.IsSafeSql | classes/field_controller.php:164-188 | Definition of the verdict of `sanitize_sql`. The normalised query is accepted when it has no forbidden whole word, no `;`, and its trimmed text starts with `select`, ignoring case. |
| Sanitizer.Normalize | classes/field_controller.php:166 | Definition of `$normalized`: `strtolower`, then `preg_replace('/\s+/', ' ', ...)`. |
| Sanitizer.CollapseFrom | classes/field_controller.php:166 | Definition of `preg_replace('/\s+/', ' ', ...)`. Each maximal run of `\s` characters becomes one space, and every other character is kept. |
| Sanitizer.WordAt | classes/field_controller.php:172 | Definition of a match of `\bk\b` at an offset. `k` occurs there, with a non-word character or the start of the text before it, and a non-word character or the end of the text after it. |
| Sanitizer.OccursAsWord | classes/field_controller.php:172 | Definition of `preg_match('/\b' . preg_quote(k) . '\b/', t)`: `k` occurs as a whole word at some offset. |
| Sanitizer.Forbidden | classes/field_controller.php:169 | Definition of the keyword list `$forbidden`: the eleven keywords in the order they are tried. |
| Sanitizer.HasForbiddenWord | classes/field_controller.php:171-175 | Definition of the `foreach`/`preg_match` test: some keyword of the list occurs as a whole word of the normalised text. |
| PhpStrings.Lower | classes/field_controller.php:166 | Definition of `strtolower`: each ASCII capital letter is mapped to its lower-case letter, and every other character is kept. |
| PhpStrings.Trim | classes/field_controller.php:183 | Definition of `trim` with its default list: space, tab, line feed, carriage return, NUL and vertical tab are stripped from both ends. |
| PhpStrings.StartsWithIgnoringCase | classes/field_controller.php:183 | Definition of `stripos(s, p) === 0`: `s` begins with `p`, ignoring ASCII case. |
| PhpStrings.PhpEmpty | classes/field_controller.php:76 | Definition of PHP `empty()` on a string setting: unset, `''` or `'0'`. Its negation is the truthiness test of line 76, and it also gives the `empty(...)` test of line 121. |
| Sanitizer.SanitizeSql | classes/field_controller.php:164-188 | Returns true exactly when the normalised query has no forbidden whole word, no `;`, and its trimmed text starts with `select` (`IsSafeSql`). The loop invariant records that every keyword tried so far is absent. |
| Sanitizer.ForbiddenWordRejected | classes/field_controller.php:169-175 | A forbidden keyword in any letter case, standing between non-word characters or the ends of the text, makes any query unsafe. |
| Sanitizer.SemicolonRejected | classes/field_controller.php:177-180 | Any query containing `;` is unsafe. |
| Sanitizer.IdentifierNotWord | classes/field_controller.php:172 | A keyword that is only part of a longer identifier is not a whole-word match: if it is not a whole word of the surrounding texts, it is not one of the combined text. |
| Sanitizer.KeywordOnlyAsIdentifier | classes/field_controller.php:172 | In space-separated identifiers, a keyword is a whole word only if it is one of the identifiers. |
| Sanitizer.SelectOfIdentifiersAccepted | classes/field_controller.php:164-188 | `select` followed by lower-case identifiers separated by single spaces, none a forbidden keyword, is accepted, even when an identifier contains a keyword. |
| Sanitizer.UpdatedAtAccepted | classes/field_controller.php:164-188 | `select updated_at from t` is accepted although it contains `update`. |
| Sanitizer.JoinedSelect | classes/field_controller.php:177-185 | Joined identifiers starting with `select` hold no `;` and pass the `stripos(trim(...), 'select') === 0` test. |
| Sanitizer.JoinedNoForbidden | classes/field_controller.php:169-175 | Identifiers none of which is a forbidden keyword give a text without any forbidden whole word. |
| Sanitizer.SafeUnderNormalize | classes/field_controller.php:164-188 | A query and its normalised text get the same verdict. |
| Sanitizer.SafeIgnoresCase | classes/field_controller.php:166 | Two queries that differ only in ASCII letter case get the same verdict. |
| Sanitizer.SafeIgnoresWhitespaceRuns | classes/field_controller.php:166 | Replacing one non-empty whitespace run by another changes neither the normalised text nor the verdict. |
| Sanitizer.NormalizeIdempotent | classes/field_controller.php:166 | Normalising twice gives the same text as normalising once. |
| Sanitizer.CollapseIdempotent | classes/field_controller.php:166 | `preg_replace('/\s+/', ' ', ...)` applied twice equals applying it once. |
| Sanitizer.CollapseShape | classes/field_controller.php:166 | After collapsing, the only whitespace left is single spaces, never two in a row. |
| Sanitizer.CollapseAppend | classes/field_controller.php:166 | Collapsing `x + y` collapses `x`, then continues on `y` in the run state `x` ended in. |
| Sanitizer.CollapseKeeps | classes/field_controller.php:166 | Every non-whitespace character of the input survives collapsing. |
| Sanitizer.CollapseChars | classes/field_controller.php:166 | Every character of the collapsed text is a space or a character of the input. |
| Sanitizer.CollapseLast | classes/field_controller.php:166 | The collapsed text of a non-empty input is non-empty and ends in a space exactly when the input ends in whitespace, else in the input's last character. |
| Sanitizer.NormalizeAround | classes/field_controller.php:166 | Around a piece without whitespace, the normalised text is the normalised left part, the lower-cased piece, then the normalised right part. |
| Sanitizer.NormalizeAroundSpace | classes/field_controller.php:166 | Around a whitespace run, the normalised text is the left part, at most one space, then the right part collapsed as continuing a run. |
| PhpStrings.TrimLeft | classes/field_controller.php:183 | The result is a suffix of the input, everything removed is a trimmed byte, and the result does not start with one. |
| PhpStrings.TrimRight | classes/field_controller.php:183 | The result is a prefix of the input, everything removed is a trimmed byte, and the result does not end with one. |
| PhpStrings.TrimUnchanged | classes/field_controller.php:183 | A text that neither starts nor ends with a trimmed byte is left unchanged by `trim`. |
| PhpStrings.Explode | classes/field_controller.php:125 | `explode(',', s)` yields at least one part, and no part holds a comma. |
| PhpStrings.ImplodeExplode | classes/field_controller.php:125 | Joining the parts of `explode(',', s)` with commas gives back `s`. |
| PhpStrings.ExplodeCount | classes/field_controller.php:125-131 | `count(explode(',', s))` is the number of commas in `s` plus one. |
| PhpStrings.ExplodeSeveral | classes/field_controller.php:125-127 | `explode(',', s)` has more than one part exactly when `s` contains a comma. |
| PhpArrays.Get | classes/field_controller.php:79-85 | A lookup finds a value exactly when the key is present, and the value found is stored under that key. |
| PhpArrays.Put | classes/field_controller.php:80 | `$a[$k] = $v` maps `k` to `v` and leaves every other key unchanged. It replaces in place when `k` is present (same length, same key at every old position) and appends otherwise. There is no precondition. |
| PhpArrays.PutUnique | classes/field_controller.php:80 | Assignment keeps the keys unique. |
| PhpArrays.PutKeys | classes/field_controller.php:80 | Assignment keeps the key order, and appends `k` at the end when it is new. |
| PhpArrays.PutAbsent | classes/field_controller.php:80 | Assigning a new key appends the entry after all existing entries. |
| PhpArrays.GetKeys | classes/field_controller.php:79-85 | A lookup succeeds exactly for the keys of the array. |
| PhpArrays.Missing | classes/field_controller.php:85 | Definition of the entries that `$l + $r` takes from `r`: those whose keys `l` lacks, in the order of `r`. |
| PhpArrays.MissingGet | classes/field_controller.php:85 | The entries that `$l + $r` takes from `r` are exactly those whose keys `l` lacks, each with its value in `r`. |
| PhpArrays.MissingKeys | classes/field_controller.php:85 | The keys that `$l + $r` takes from `r` are the keys of `r` missing from `l`, in the order of `r`. |
| PhpArrays.Union | classes/field_controller.php:85 | `$l + $r` keeps keys unique and starts with all of `l`. A key of `l` keeps its value, and any other key takes its value from `r`. The keys are those of `l`, then the keys of `r` that `l` lacks in the order of `r`. With disjoint keys the result is `l` followed by `r`. |
| Options.Label | classes/field_controller.php:80 | Definition of `format_string($option->data)` for one record, with the empty string when the record has no `data`. |
| Options.Latest | classes/field_controller.php:79-81 | A label is found for `k` exactly when some record's formatted key is `k`. It is the label of such a record, and no later record has that key. |
| Options.LatestStep | classes/field_controller.php:79-81 | Reading one more record changes the label of that record's formatted key only. |
| Options.FormattedKeysStep | classes/field_controller.php:79-80 | One more record adds its formatted key at the end of the formatted keys. |
| Options.EntriesStep | classes/field_controller.php:79-80 | One more record adds its entry (formatted key, label) at the end of the entries. |
| Options.FirstOccurrences | classes/field_controller.php:79-81 | The key order that assigning keys in turn produces. It holds the same strings as the input, each once. |
| Options.FirstOccurrencesSnoc | classes/field_controller.php:80 | One more key is appended only when it has not occurred before. |
| Options.FirstOccurrencesDistinct | classes/field_controller.php:79-81 | Keys without repetitions keep their order and none is dropped. |
| Options.FillOptions | classes/field_controller.php:78-81 | The `foreach` produces an array with unique keys that maps every formatted key to the label of the last record with that key. Its keys come in the order in which the records first produce them. With distinct keys it is exactly one entry per record, in the records' order. |
| Options.EntriesUnique | classes/field_controller.php:85 | With distinct, non-empty formatted keys, the per-record entries have unique keys, none of them the placeholder key. |
| Options.SentinelFirst | classes/field_controller.php:85 | The placeholder `('', choose)` comes first in the returned array, and every other key keeps the value the loop gave it. The other keys follow in the loop's order, without `''`. |
| Options.SentinelDistinct | classes/field_controller.php:85 | With distinct, non-empty formatted keys, the returned array is the placeholder followed by one entry per record, in the records' order. |
| Options.GetOptionsArray | classes/field_controller.php:74-86 | Gives the placeholder alone for an empty or falsy setting, and propagates a database exception. Otherwise it gives unique keys with the placeholder first and the last label per formatted key, the other keys in order of first occurrence. With distinct keys the result is exactly the placeholder followed by one entry per record in order. |
| Validation.ArrayColumn | classes/field_controller.php:124 | `array_column(rows, 'data', 'id')` has key `k` exactly when some record with both properties has `id` equal to `k`. |
| Validation.NameInjective | classes/field_controller.php:102-151 | The two form element names `configdata[dynamicsql]` and `configdata[defaultvalue]` differ, so errors keyed by element are the PHP array keyed by name. |
| Validation.ConfigFormValidation | classes/field_controller.php:96-154 | At most one error is returned. An error on the default value arises only for a single-select field, and it is never the "required" error. |
| Validation.MissingQueryRequired | classes/field_controller.php:100-102 | An unset or empty query gives exactly the "required" error on the query field. |
| Validation.UnsafeQueryNotRun | classes/field_controller.php:104-106 | A query the filter rejects gives `queryerrorfalse`, whatever the database would answer: the query is never run. |
| Validation.DbErrorReported | classes/field_controller.php:150-151 | An exception from running a safe query is reported on the query field with its message. |
| Validation.EmptyResultIsQueryFalse | classes/field_controller.php:109-110 | A safe query with no records gives `queryerrorfalse`. |
| Validation.QueryEmptyUnreachable | classes/field_controller.php:112-113 | The `queryerrorempty` message is never produced. |
| Validation.FirstRecordChecked | classes/field_controller.php:115-120 | Only the first record is inspected. A missing `id` there gives `queryerroridmissing`, even when `data` is missing too, and a missing `data` alone gives `queryerrordatamissing`. |
| Validation.QueryErrorExcludesDefault | classes/field_controller.php:99-143 | An error on the query field means the query stage failed, and no error on the default value is reported with it. |
| Validation.EmptyDefaultSkipped | classes/field_controller.php:121 | When the query passes and the default is empty in PHP's sense (unset, `''` or `'0'`), there is no error. |
| Validation.MultiselectDefaultUnchecked | classes/field_controller.php:127-141 | With multiselect on, no error about the default value is produced. |
| Validation.SeveralDefaultsRefused | classes/field_controller.php:125-132 | For a single-select field, a default with commas is refused with the number of comma-separated values. |
| Validation.SingleDefaultMustExist | classes/field_controller.php:133-138 | For a single-select field, a single default is refused exactly when no record with a `data` property has it as `id`. |
| Validation.AcceptedExactly | classes/field_controller.php:96-154 | No error is returned exactly when the query passes every check and the default is empty, or multiselect is on, or the default is one value equal to some record's `id`. |

## Left out

- `config_form_definition` only declares form elements for the Moodle form library. There is no logic to verify.
- The database layer is not modelled. A query's outcome is an input: an exception message, or the records in order. The record's array key is the value of its first column.
- `format_string` and `get_string` depend on filters, language packs and the current user. `format_string` is a function parameter. Messages are identified by `ErrorKind` and their arguments, not rendered.
- Only the PCRE pieces the filter uses are modelled (`\s+`, and `\bkeyword\b` as a whole-word test), not general regular expressions. `\w` is ASCII only, without locale tables or UTF-8 mode.
- Bytes are modelled as `char`; there is no multibyte handling.
- PHP's conversion of numeric-string array keys to integers is not modelled: all keys are strings.
- Validation.ArrayColumn: rows without an `id` are dropped. PHP's `array_column` would append their `data` under the next integer key.
- DataSource.Records: the records' first-column values may repeat, although `get_records_sql` never returns two records with the same key: a later one overwrites the earlier one in place, with a debugging notice. `get_options_array` gives the same result either way only when `format_string` maps distinct keys to distinct strings. Otherwise the model's `Latest` takes the label of the last record whose key formats to `k`, while PHP takes it from the last surviving record. In validation, `array_column` also sees the records PHP has dropped. The first record can also differ from the one PHP's `reset` returns, which stands at the first key's place with the last duplicate's values.
- Options.Latest: a record without a `data` property is given the formatted empty string. PHP reads `null` there and emits a warning.
- Validation.ConfigData: the multiselect setting is an integer, not PHP's loosely compared form value, and the `$files` argument is ignored.
