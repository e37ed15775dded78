# Paper metadata extractor, modelled in Dafny

`parse_source_data.py` reads bibliographic records in a RIS-like tagged
format. On each line the first two characters are the tag (`T1`, `JF`,
`VL`, `SP`, `EP`, `PY`, `UR`, `M3`, `AU`), and the value starts at
column 5, with surrounding whitespace removed. `parse_meta(name, lines)`
builds one paper's record from those lines:

- `_id` is derived from the file name.
- Each tagged line stores its value in one field; a later line with the
  same tag overwrites an earlier one.
- `AU` lines are collected into `authors`.
- `page_length` is derived from the page bounds at the end.

A `VL` value that is not an integer, and a `PY` value that is not a
`YYYY/MM/DD/` date, raise an exception and end the parse. A bad `SP` or
`EP` value is skipped. `main` parses every file named on the command line
in order.

The model has these modules:

- `Wrappers`: `Option` and `Result`.
- `Text`: Python's `s[k:]`, `str.strip()`, `str.startswith`,
  `split('.')[0]`, and decimal digits.
- `PyInt`: Python 2's `int()` on a stripped string.
- `PyDate`: `datetime.strptime(s, '%Y/%m/%d/')`, reduced to what the
  parser uses.
- `ParseSourceData`: the record, one line's effect (`Step`), the fold over
  the lines (`Fold`), and `Finish`, which derives `page_length`.
  - The method `ParseMeta` has the source's loop. Its loop invariant ties it
    to the fold.
  - The method `ParseFiles` is `main`'s loop over the input files.
- `MetaProperties`: per-field reference definitions over the input lines
  (the last line that stores a field, the list of `AU` values, the first
  fatal line). It proves that the record returned by `parse_meta` agrees
  with them.
- `MetaScenarios`: concrete records worked through the model.

A Python exception is the `Err` case of a `Result`: `InvalidVolume` for
`int()` on a `VL` value, and `InvalidDate` for `strptime` on a `PY` value.
Each field of the returned dictionary is an `Option` field of `Record`,
where `None` means the key is absent.

`page_length` is derived when `p.get('start_page') and p.get('end_page')`
holds, which is Python truthiness: a page bound of `0` is falsy, so it
suppresses `page_length` too (`ParseSourceData.Truthy`).

## Model

| member | source | states |
|---|---|---|
| ParseSourceData.ParseMetaSpec | parse_source_data.py:15-54 | `parse_meta` as a value: the fold of `Step` from `Initial`, then `Finish`. It has no contract of its own; what it returns is characterised by the `MetaProperties` lemmas (`FieldIsLastAssignment`, `AuthorsInFileOrder`, `FatalLines`, `PageLengthIffBothBounds`, `IdSurvives`). |
| ParseSourceData.Step | parse_source_data.py:22-50 | One pass of the loop body. It has no contract of its own; `MetaProperties.StepTouchesOneField` and `MetaProperties.StepFails` state what it does. |
| ParseSourceData.Fold | parse_source_data.py:22-50 | The `for` loop, as a left fold over the lines that stops at the first raise. It has no contract of its own; `MetaProperties.FoldField`, `FoldAuthors` and `FoldFails` characterise it. |
| ParseSourceData.TagOf | parse_source_data.py:23-49 | The `startswith` chain, tried in source order. It has no contract of its own; `ParseSourceData.TagOfIsPrefix` states it. |
| ParseSourceData.ValueOf | parse_source_data.py:24 | `l[5:].strip()`, composed from `Text.From` and `Text.Strip`, whose lemmas characterise it. |
| ParseSourceData.Truthy | parse_source_data.py:52 | Python truthiness of `p.get(key)` for an integer field: present and nonzero. `Finish` and `MetaProperties.PageLengthIffBothBounds` use it. |
| Text.HasPrefix | parse_source_data.py:17 | `s.startswith(prefix)`: the prefix fits and matches the first characters. |
| Text.Strip | parse_source_data.py:24 | `s.strip()`; `Text.StripSpec`, `Text.StripNoEdgeSpace` and `Text.StripIdempotent` characterise it. |
| PyDate.ValidDate | parse_source_data.py:42 | The dates `datetime.date` accepts: year 1..9999, month 1..12, and a day within the month by `PyDate.DaysInMonth`. |
| ParseSourceData.ParseMeta | parse_source_data.py:15-54 | The loop over the lines computes exactly the fold of the per-line step from the initial record, then the `page_length` step. It returns the first fatal error as soon as it occurs. |
| ParseSourceData.ApplyLine | parse_source_data.py:22-50 | The `if`/`elif` chain on the tag prefixes, with a stripped column-5 value, does what one line does in the fold. |
| ParseSourceData.DeriveId | parse_source_data.py:17-20 | `_id` contains no `.`. It is a prefix of the name, without `metadata/` when the name starts with it. It ends at the first `.` or at the end of the name. |
| ParseSourceData.Initial | parse_source_data.py:16-21 | Before any line is read, the record holds only the derived `_id` and an empty `authors`: every optional field is absent. |
| ParseSourceData.Finish | parse_source_data.py:52-53 | When both page bounds are truthy, `page_length` is end minus start. Otherwise the record is unchanged. No other field is touched. |
| ParseSourceData.TagOfIsPrefix | parse_source_data.py:23-49 | A line classified under a tag starts with that tag's two letters. |
| ParseSourceData.FoldErrStays | parse_source_data.py:27-44 | Once a line has raised, the lines after it change nothing. |
| ParseSourceData.FoldKeepsId | parse_source_data.py:16-50 | The loop never changes `_id` and never sets `page_length`. |
| ParseSourceData.IdSurvives | parse_source_data.py:17-20 | Every successfully parsed record carries the `_id` derived from its file name. |
| ParseSourceData.ParseFiles | parse_source_data.py:62-66 | Succeeds exactly when every file parses, and then returns one record per file, in argument order, each equal to that file's parse. On failure it returns the error of the first file that fails, when all earlier files parse. |
| MetaProperties.StepTouchesOneField | parse_source_data.py:22-50 | A line changes only the field its tag names, or appends one author. It never changes `_id`. A line with any other tag changes nothing. |
| MetaProperties.StepFails | parse_source_data.py:27-44 | A line raises exactly when it is a VL line whose value is not an integer or a PY line whose value is not a date. The error carries that value. |
| MetaProperties.OneFieldPerLine | parse_source_data.py:22-50 | No line stores under two fields, except a PY line, which stores both year and month. |
| MetaProperties.AssignedTag | parse_source_data.py:22-50 | Only a line carrying a field's tag stores under that field, and no line stores `page_length`. |
| MetaProperties.LastSomeIsLast | parse_source_data.py:22-48 | The last present entry of a column is absent exactly when every entry is absent, and otherwise equals the entry at the last present position. |
| MetaProperties.LastAssignedIsLast | parse_source_data.py:22-48 | The reference "last assignment" of a field is absent exactly when no line stores under it, and is otherwise the value stored by the last such line. |
| MetaProperties.FoldField | parse_source_data.py:22-48 | After the loop, each field holds the value of the last line that stored under it, or its initial value when no line did. |
| MetaProperties.AuthorsOfSnoc | parse_source_data.py:49-50 | Appending a line appends its value to the reference list of authors exactly when it is an AU line. |
| MetaProperties.FoldAuthors | parse_source_data.py:21-50 | After the loop, `authors` is the initial list followed by every AU value, in file order. |
| MetaProperties.FoldFails | parse_source_data.py:22-50 | The loop raises exactly when some line is fatal, and then with the error of the first fatal line. |
| MetaProperties.ParseIsFinishedFold | parse_source_data.py:52-54 | A successful parse is a successful loop followed by the `page_length` step, which changes no other field: `_id`, `authors` and every optional field other than `page_length` are the loop's. |
| MetaProperties.FieldIsLastAssignment | parse_source_data.py:22-48 | On success, each stored field is absent exactly when no line stores under it, and otherwise holds the value of the last line that does. |
| MetaProperties.TextFieldIsLastLine | parse_source_data.py:23-48 | For T1, JF, UR and M3, the field is absent exactly when no line has that tag, and otherwise holds the stripped value of the last such line. |
| MetaProperties.PageBoundIsLastIntLine | parse_source_data.py:29-38 | `start_page` / `end_page` is absent exactly when no SP / EP line has an integer value. Otherwise it holds the last such integer. Lines with non-integer values are skipped. |
| MetaProperties.FatalLines | parse_source_data.py:27-44 | A parse fails exactly when some VL value is not an integer or some PY value is not a date. The error is the first such line's. |
| MetaProperties.NoFatalLine | parse_source_data.py:27-44 | A parse that returns has no line whose value raises. |
| MetaProperties.DateLineAssigns | parse_source_data.py:39-44 | A PY line that does not raise stores both year and month, and no other line stores either. |
| MetaProperties.VolumeIsLastLine | parse_source_data.py:27-28 | On success, every VL value is an integer. `volume` is absent exactly when there is no VL line, and otherwise is the last VL value. |
| MetaProperties.DateIsLastLine | parse_source_data.py:39-44 | On success, every PY value is a date. `date_year` and `date_month` are both present exactly when a PY line exists, and are then the year and month of the last one. |
| MetaProperties.AuthorsInFileOrder | parse_source_data.py:21-50 | On success, `authors` lists the value of every AU line, in file order, and is empty when there are none. |
| MetaProperties.PageLengthIffBothBounds | parse_source_data.py:52-53 | On success, `page_length` is present exactly when both page bounds are present and nonzero, and is then end minus start. |
| MetaProperties.IdOfMetadataPath | parse_source_data.py:17-18 | For `metadata/<stem>.<ext>`, where the stem has no `.`, the `_id` is the stem. |
| MetaProperties.IdOfOtherPath | parse_source_data.py:19-20 | For `<stem>.<ext>`, where the stem has no `.` and does not start with `metadata/`, the `_id` is the stem. |
| Text.From | parse_source_data.py:24 | `l[5:]`: empty for short lines, and otherwise the characters from column 5 on. |
| Text.TrimStartSpec | parse_source_data.py:24 | Removing leading whitespace leaves a suffix that does not start with whitespace, after a prefix made only of whitespace. |
| Text.TrimEndSpec | parse_source_data.py:24 | Removing trailing whitespace leaves a prefix that does not end with whitespace, before a suffix made only of whitespace. |
| Text.StripSpec | parse_source_data.py:24 | `strip()` returns the middle of its input: only whitespace is cut from each end, and the result neither starts nor ends with whitespace. |
| Text.StripNoEdgeSpace | parse_source_data.py:24 | A string that neither starts nor ends with whitespace is unchanged by `strip()`. |
| Text.StripIdempotent | parse_source_data.py:24 | Stripping twice is the same as stripping once. |
| Text.BeforeFirst | parse_source_data.py:18 | `split(c)[0]` is the longest prefix without `c`. It ends at the first `c` or at the end of the string. |
| Text.BeforeFirstSeparator | parse_source_data.py:18 | For `a + c + b`, where `a` has no `c`, `split(c)[0]` is `a`. |
| Text.DigitsValue | parse_source_data.py:28 | The decimal value of `k` digits is below 10^k. |
| Text.NatToString | parse_source_data.py:28 | The decimal rendering of `n` is nonempty, all digits, has no leading zero unless `n` is 0, and reads back as `n`. |
| Text.ZeroPrefixValue | parse_source_data.py:42 | Leading zeros do not change a decimal value. |
| PyInt.ParseInt | parse_source_data.py:28 | `int()` succeeds exactly on an optional sign followed by one or more digits. The result is the decimal value of the digits, negated after a `-` sign. |
| PyInt.ParseIntToString | parse_source_data.py:28 | `int(str(n)) == n` for every integer. |
| PyInt.NotApplicableIsNotInt | parse_source_data.py:30-33 | `int('N/A')` raises. |
| PyDate.DaysInMonth | parse_source_data.py:42 | A month has 28 to 31 days, and 29 exactly in February of a Gregorian leap year. |
| PyDate.MonthField | parse_source_data.py:42 | `%m` accepts exactly one or two digits, and reads their decimal value (the range is checked afterwards). |
| PyDate.DayField | parse_source_data.py:42 | `%d` accepts exactly one or two digits, or a blank followed by a nonzero digit, and reads the value of the digits. |
| PyDate.ParseDate | parse_source_data.py:42 | A parsed date is a valid calendar date, and the text is four year digits, `/`, a `%m` field, `/`, a `%d` field and a final `/`. Year, month and day are the values read from those fields. |
| PyDate.NatToStringShort | parse_source_data.py:42 | A number below 10^k renders in at most `k` digits. |
| PyDate.ParseFields | parse_source_data.py:42 | A text `Y/M/D/`, where `Y` is four digits and `M` has no `/`, parses exactly when `M` is a `%m` field, `D` is a `%d` field and the date they name is valid, and then to that date. |
| PyDate.ParseDigitFields | parse_source_data.py:42 | Four digits, `/`, one or two digits, `/`, one or two digits, `/` parse as the date those digits name when it is valid, and fail otherwise. |
| PyDate.BlankPaddedDay | parse_source_data.py:42 | A day written as a blank and one nonzero digit, as in `1985/03/ 5/`, is read as that digit. |
| PyDate.ParseFormat | parse_source_data.py:42 | Every valid date written as zero-padded `YYYY/MM/DD/` parses back to itself. |
| PyDate.TwoDigits | parse_source_data.py:42 | Two digit characters have the value their digits name. |
| PyDate.FourDigits | parse_source_data.py:42 | Four digit characters have the value their digits name. |
| PyDate.ParseExample | parse_source_data.py:42 | `1985/03/15/` parses to 15 March 1985. |
| PyDate.NoLeapDayIn1900 | parse_source_data.py:42 | `1900/02/29/` is rejected: 1900 is not a leap year. |
| PyDate.NotADate | parse_source_data.py:42 | `not-a-date` is rejected. |
| MetaScenarios.TaggedLineValue | parse_source_data.py:23-24 | A line `XX  - v` followed by a newline has tag `XX` and value `v`, when `v` has no whitespace at its edges. |
| MetaScenarios.FoldOne | parse_source_data.py:22 | A one-line record is one step from the initial record. |
| MetaScenarios.FoldTwo | parse_source_data.py:22 | A two-line record is two steps, the second taken only if the first did not raise. |
| MetaScenarios.TaggedStep | parse_source_data.py:22-50 | A tagged line is classified under its tag, and its value is `v`. |
| MetaScenarios.SmallInts | parse_source_data.py:28 | `int('3')`, `int('10')` and `int('0')` are 3, 10 and 0. |
| MetaScenarios.StartPageNotApplicable | parse_source_data.py:29-33 | `SP  - N/A` leaves `start_page` and `page_length` absent, and the next AU line is still read. |
| MetaScenarios.DateScenario | parse_source_data.py:39-44 | `PY  - 1985/03/15/` gives `date_year` 1985 and `date_month` 3. |
| MetaScenarios.BadDateScenario | parse_source_data.py:39-42 | `PY  - not-a-date` aborts the parse with that value. |
| MetaScenarios.PageLines | parse_source_data.py:29-38 | An SP line and an EP line with integer values set both page bounds. |
| MetaScenarios.NegativePageLength | parse_source_data.py:52-53 | Start page 10 and end page 3 give `page_length` -7: the difference is not clamped. |
| MetaScenarios.ZeroStartPage | parse_source_data.py:52-53 | A start page of 0 is kept, but being falsy it suppresses `page_length`. |

## Left out

- File reading in `main` (`open`, `readlines`) is left out: each file is given to `ParseFiles` as a name plus its lines.
- `json.dumps` of the result list and printing it are left out, so dictionary key order and the JSON text are not modelled. The record's `Option` fields stand for which keys are present.
- The command line front end is left out: `optparse`, `--verbose`, timing output, the traceback handler and `os._exit`. All of it is I/O around `main`.
- ParseInt: does not model every input CPython 2 `int()` accepts. Whitespace between the sign and the digits and Unicode digits are not modelled, because both are outside the plain decimal values these records carry.
- ParseDate: models only the `%Y/%m/%d/` format. Locale handling, the regular-expression cache and the other strptime directives are left out because no other format is used.
- Strip: the whitespace set is the six ASCII characters Python 2's byte `str.strip()` removes. Unicode whitespace is not modelled, because the lines are byte strings.
- Finish: its contract is stated as two implications plus "nothing else changes", not as one equation. The whole iff is proved for the full parse in `MetaProperties.PageLengthIffBothBounds`.
