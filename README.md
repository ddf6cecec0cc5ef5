# Spreadsheet record normaliser and ShellCheck-to-SARIF transform, in Dafny

This project models two parts of the repository and proves properties about them.

The first part is the spreadsheet-row normaliser of `sheet_to_json.py`:

- `_col_to_index` turns a column label into a 0-based index (module `Columns`).
- `_safe_split` splits a cell at the commas that are not inside brackets (module `ArraySplit`).
- `_parse_singers` handles performer credits of the form `unit[member, member]` (module `Singers`).
- `SheetProcessor.__init__` derives the processor's key lists, and `_process_row` turns one row into a record (module `SheetRow`, with the per-key properties in `SheetRowProperties`).
- `process` and `_sort_key` read the data rows up to the first blank end-check row and sort the records by decreasing ID (module `SheetTable`, using the stable sort of `Sorting`).

The second part is the loop of `scripts/convert_shellcheck_to_sarif.py` that turns ShellCheck findings into one SARIF result each, plus one rule per distinct rule id (module `Sarif`).

Shared helpers:

- `Strings` covers Python's whitespace set, `str.strip`, `str.split` with a single-character separator, substring search, and `int`/`str` on decimal numerals.
- `Seqs` covers order-preserving deduplication (`dict.fromkeys` and the seen-set comprehension), `Map`, prefix concatenation and first-match search.
- `Wrappers` holds `Option` and `Result`.

Each operation that loops in the source is modelled as a method with a loop and is proved against a function of its inputs:

- `ColToIndex`, `ParseSingers`/`ExpandParts`, `ApplyRules` and `DedupLists` (the two loops of `_process_row`);
- `CollectRows` (the loop of `process`);
- `Convert` (the loop over findings).

The functions are then related by lemmas to what the source promises. Those results are:

- a bijective base-26 encoding;
- round trips;
- last-writer-wins for text fields;
- first-occurrence deduplication for list fields;
- a sorted, permuted and stable output;
- one result per finding;
- unique rules in first-occurrence order.

Two behaviours of the regular expressions, which the model follows exactly:

- `SINGER_PATTERN` (`sheet_to_json.py:128`) lets brackets appear inside the member list. The unit ends at the first `[` that leaves a non-empty unit and a non-empty body closed by the final `]`, where neither the unit nor the body contains a newline, since `.` does not match one. So `A[b[c]]` gives unit `A` and body `b[c]`, while a part with a newline in its unit, such as `A\nB[c]`, is kept whole. The comment above the pattern (line 127) shows only the flat form `unit[member1,member2]`.
- `ARRAY_SPLIT_PATTERN` (line 130) splits at a comma exactly when the first bracket character after it is not `]`. So a comma followed by a `]` with no `[` in between does not split, even when that `]` closes nothing: `a, b]` is one piece. A comma that comes after an unmatched `]` does split: `a], b` gives `a]` and ` b`.

## Model

| member | source | states |
|---|---|---|
| Columns.ColToIndex | sheet_to_json.py:135-140 | the loop computes the base-26 value of the label with A=1…Z=26, letters case-insensitive, minus one; 0 or more for a non-empty label |
| Columns.ColumnIndex | sheet_to_json.py:135-140 | the index of a non-empty label is at least 0 (its value is the bijective base-26 value minus one) |
| Columns.DecodeEncode | sheet_to_json.py:135-140 | decoding the upper-case encoding of any natural number gives the number back |
| Columns.EncodeDecode | sheet_to_json.py:135-140 | encoding the value of a label gives back the label in upper case, so the label-to-index map is injective up to case |
| Columns.LabelValueUpper | sheet_to_json.py:138 | upper-casing a label does not change its value |
| Columns.ColumnIndexOfLabel | sheet_to_json.py:135-140 | every column index is the index of some label |
| Columns.ColumnIndexExamples | sheet_to_json.py:135-140 | A is 0, Z is 25, AA is 26, ab is 27 |
| Strings.IsSpace | sheet_to_json.py:156 | defines the characters `str.isspace` accepts, the set `str.strip` removes and `\s` matches |
| Strings.Strip | sheet_to_json.py:156 | `str.strip` result is no longer than its input, has no whitespace at either end, and is empty exactly when the input is all whitespace |
| Strings.StripIsSubstring | sheet_to_json.py:156 | the stripped text is the input without a whitespace prefix and suffix |
| Strings.StripIgnoresLeadingSpace | sheet_to_json.py:130 | whitespace in front of a string (the `\s*` after a separator) does not change its strip |
| Strings.Clean | sheet_to_json.py:156 | the kept pieces are non-empty and stripped, at most one per input piece |
| Strings.CleanAppend | sheet_to_json.py:156 | cleaning distributes over concatenation, so piece order is kept |
| Strings.CleanOne | sheet_to_json.py:156 | a single piece is kept, stripped, exactly when it is not blank; with CleanAppend this fixes the whole result |
| Strings.CleanMembers | sheet_to_json.py:156 | the kept pieces are exactly the stripped forms of the non-blank input pieces |
| Strings.SplitOn | sheet_to_json.py:287 | `str.split(",")` gives at least one piece, none holding the separator, and joining them with it gives back the input |
| Strings.SplitOnJoin | sheet_to_json.py:287 | splitting the join of separator-free pieces gives back the pieces |
| Strings.ContainsMeaning | sheet_to_json.py:251 | the `in` test on strings holds exactly when the needle occurs at some position |
| Strings.Contains | sheet_to_json.py:251 | the `in` test: the empty string is in every string, and a needle longer than the text is in none |
| Strings.ParseShowInt | sheet_to_json.py:297 | `int` of the decimal numeral of n is n |
| Strings.ShowIntInjective | sheet_to_json.py:297 | distinct integers have distinct numerals |
| Strings.ShowInt | scripts/convert_shellcheck_to_sarif.py:47 | defines `str` of an integer: a `-` for negatives, then the shortest decimal numeral of the magnitude (ShowNat states that it denotes the number) |
| Strings.ParseInt | sheet_to_json.py:297 | `int` of text: a value needs non-blank text, a negative value a leading `-`, and an ASCII numeral with whitespace around it gives its decimal value |
| Strings.ParseIntMeaning | sheet_to_json.py:297 | `int` of text succeeds exactly when the stripped text is ASCII digits after at most one sign, and then gives the signed value |
| Strings.ParseSigned | sheet_to_json.py:297 | ` -12` gives -12 and `+5` gives 5 |
| Strings.ParseZeroPadded | sheet_to_json.py:297 | `007` gives 7 |
| Strings.ParseRejects | sheet_to_json.py:297-299 | `12a` and a bare `-` give no value |
| Seqs.Distinct | sheet_to_json.py:265-268 | the deduplicated list has no repeats and the same members as its input |
| Seqs.DistinctOrder | sheet_to_json.py:198-205 | deduplication keeps elements in order of first occurrence |
| Seqs.DistinctOfNoDup | sheet_to_json.py:265-268 | a list without repeats is left unchanged |
| ArraySplit.CloseAheadMeaning | sheet_to_json.py:130 | the lookahead holds exactly when some `]` follows with no `[` before it |
| ArraySplit.CloseAhead | sheet_to_json.py:130 | defines the lookahead `(?=[^[]*\])` as a scan to the first bracket character; CloseAheadMeaning states its meaning |
| ArraySplit.IsSplitComma | sheet_to_json.py:130 | defines a separating comma: a comma whose lookahead fails |
| ArraySplit.Scan | sheet_to_json.py:130 | defines the left-to-right scan that cuts at every comma the lookahead accepts; ScanJoin states that it gives at least one piece and loses nothing |
| ArraySplit.RawPieces | sheet_to_json.py:130 | `ARRAY_SPLIT_PATTERN.split` gives at least one piece |
| ArraySplit.SafeSplit | sheet_to_json.py:143-156 | every returned piece is non-empty and stripped, at most one per regex piece |
| ArraySplit.SafeSplitMembers | sheet_to_json.py:156 | `_safe_split` returns exactly the stripped forms of the non-blank regex pieces |
| ArraySplit.RawPiecesJoin | sheet_to_json.py:130 | the regex pieces joined with commas give back the input: nothing but separators is removed |
| ArraySplit.RawPiecesWhole | sheet_to_json.py:130 | a string with no separating comma is a single piece |
| ArraySplit.RawPiecesFirstSplit | sheet_to_json.py:130 | the first piece ends at the first separating comma, and the rest is split the same way |
| ArraySplit.UnbracketedSplitsAtEveryComma | sheet_to_json.py:130 | without brackets every comma separates, as in `str.split(",")` |
| ArraySplit.LeadingSpaceStripped | sheet_to_json.py:156 | the space left after a separator disappears in the strip |
| ArraySplit.BracketedCommaKept | sheet_to_json.py:153 | `佐高陵平[Hifumi, inc.]` stays one piece |
| ArraySplit.TopLevelCommasSplit | sheet_to_json.py:154 | `作者A, 作者B[グループ], 作者C` gives the three authors, brackets attached |
| ArraySplit.ClosedBracketKeepsComma | sheet_to_json.py:130 | a comma inside `[1,2]` does not split, the comma after `]` does |
| ArraySplit.UnmatchedCloseAheadKeepsComma | sheet_to_json.py:130 | `a, b]` is one piece: the `]` ahead suppresses the split although it closes nothing |
| ArraySplit.UnmatchedCloseBehindSplits | sheet_to_json.py:130 | `a], b` splits into `a]` and ` b`: a `]` behind the comma does not matter |
| Singers.GroupOpensAt | sheet_to_json.py:128 | defines where `SINGER_PATTERN` can match a stripped part: a non-empty unit without newline, `[`, a non-empty body without newline, and a final `]` |
| Singers.FindOpen | sheet_to_json.py:128 | finds the first `[` at or after k that leaves a non-empty unit and a non-empty body ending the part with `]`, or reports that there is none |
| Singers.MatchGroup | sheet_to_json.py:128 | `SINGER_PATTERN.match`: the lazy unit ends at the first such `[`; no match means no position qualifies |
| Singers.PartNames | sheet_to_json.py:278-290 | a part contributes nothing exactly when it is blank, and every name it contributes is non-empty and stripped |
| Singers.StrippedNames | sheet_to_json.py:280-290 | a stripped part yields nothing exactly when it is empty; a non-empty part at which the pattern matches nowhere is kept whole as the only name; all names are non-empty and stripped |
| Singers.GroupNames | sheet_to_json.py:284-288 | a matched part yields the stripped unit first, then only non-empty, stripped members |
| Singers.MalformedGroupKept | sheet_to_json.py:282-290 | `A[b]c` does not match the pattern and is kept whole |
| Singers.NewlineUnitKept | sheet_to_json.py:128 | `A\nB[c]` does not match the pattern, because `.` does not match the newline, and is kept whole |
| Singers.SingerNames | sheet_to_json.py:276-290 | defines the output as the names of the parts concatenated in part order; its properties are the lemmas below |
| Singers.SingerNamesAreNames | sheet_to_json.py:272-291 | every name in the output is non-empty and stripped |
| Singers.ParseSingers | sheet_to_json.py:272-291 | the loop's output is the parts' names concatenated in part order, all non-empty and stripped |
| Singers.ExpandParts | sheet_to_json.py:277-290 | the loop over parts appends each part's names in order |
| Singers.SingerNamesAppend | sheet_to_json.py:277-290 | the names of concatenated part lists are the concatenated names: encounter order is kept |
| Singers.GroupedPartNames | sheet_to_json.py:282-288 | `unit[body]` gives the unit followed by the stripped non-empty comma-separated members of the body |
| Singers.GroupOfTwo | sheet_to_json.py:282-288 | `unit[x, y]` gives exactly unit, x, y |
| Singers.PlainPartsNames | sheet_to_json.py:289-290 | parts without `[` are emitted stripped and unchanged, empty ones dropped |
| Singers.PlainValueIsSafeSplit | sheet_to_json.py:276-290 | on a value without `[` the credit parser agrees with `_safe_split` |
| Singers.GroupedCreditExample | sheet_to_json.py:272-291 | `GroupX[Mem1, Mem2]` gives GroupX, Mem1, Mem2 |
| SheetRow.Keys | sheet_to_json.py:204 | the keys of the mapping rules in mapping order |
| SheetRow.ArrayRuleKeys | sheet_to_json.py:200 | the keys of the list rules: a key is listed exactly when some list rule names it |
| SheetRow.NewSheetProcessor | sheet_to_json.py:193-205 | both key lists are duplicate-free; a key is listed exactly when some rule names it, a list key exactly when some list rule names it |
| SheetRow.ProcessorKeyOrder | sheet_to_json.py:203-205 | record keys come in the order of the first rule naming each |
| SheetRow.RuleKey | sheet_to_json.py:198-205 | each rule's key is a record key, and it is a list key exactly when the rule is a list rule |
| SheetRow.ArrayKeyIsKey | sheet_to_json.py:198-205 | every list key is a record key |
| SheetRow.CellValue | sheet_to_json.py:241 | the cell text is stripped and empty exactly when the column lies past the row's end or the cell is all whitespace |
| SheetRow.Usable | sheet_to_json.py:243-244 | defines a usable cell value: non-empty and not an ignored value |
| SheetRow.ReadCell | sheet_to_json.py:238-241 | computes the cell text above through `_col_to_index` |
| SheetRow.Without | sheet_to_json.py:255 | defines the filter `v.strip() != "越境"` on already stripped pieces; WithoutMeaning, WithoutAppend and WithoutOne state what it keeps |
| SheetRow.WithoutMeaning | sheet_to_json.py:255 | filtering out one value keeps exactly the other members |
| SheetRow.WithoutAppend | sheet_to_json.py:252-256 | filtering distributes over concatenation, so order and repeats are kept |
| SheetRow.WithoutOne | sheet_to_json.py:255 | a single piece is dropped exactly when it is `越境` |
| SheetRow.BrandParts | sheet_to_json.py:252-256 | defines the brand list as the cleaned colon pieces without `越境`; its members are stated by BrandPartsMeaning |
| SheetRow.BrandPartsMeaning | sheet_to_json.py:252-256 | the brand list holds exactly the stripped non-empty colon pieces other than `越境` |
| SheetRow.BrandPartsRepeat | sheet_to_json.py:252-256 | `越境:B:A:B` gives `B`, `A`, `B`: order and repeats reach the deduplication |
| SheetRow.Tokens | sheet_to_json.py:246-259 | defines what a usable list cell adds: credits for `歌唱`, the brand list for a `ブランド` cell containing `越境`, `_safe_split` otherwise |
| SheetRow.TokensAreNames | sheet_to_json.py:246-259 | every value a list cell contributes is non-empty and stripped, whichever of the three splitters applies |
| SheetRow.Contribution | sheet_to_json.py:246-259 | picks the credit parser for `歌唱`, the colon split for a `ブランド` cell containing `越境`, `_safe_split` otherwise |
| SheetRow.InitialFields | sheet_to_json.py:233-235 | defines the initial record fields: `[]` for a list key and `""` for any other key |
| SheetRow.InitialFieldsAfterNoRule | sheet_to_json.py:233-235 | before any column is read each key holds `[]` if it is a list key and `""` otherwise |
| SheetRow.FieldsSkip | sheet_to_json.py:243-244 | an empty or ignored cell changes nothing |
| SheetRow.FieldsArray | sheet_to_json.py:246-260 | a usable list cell extends its key's list by its tokens and changes no other key |
| SheetRow.FieldsScalar | sheet_to_json.py:261-262 | a usable text cell overwrites its key's text and changes no other key |
| SheetRow.FieldAfter | sheet_to_json.py:233-262 | defines a field after the first n rules: the concatenated pieces for a list key, the last usable text or `""` for a text key |
| SheetRow.ApplyRule | sheet_to_json.py:237-262 | one iteration of the column loop moves the fields from the state after i rules to the state after i+1 |
| SheetRow.ApplyRules | sheet_to_json.py:233-262 | the column loop ends in the state after all rules |
| SheetRow.Dedup | sheet_to_json.py:265-268 | defines the final step on one field: a non-empty list is deduplicated, keeping first occurrences; Seqs.Distinct states its properties |
| SheetRow.DedupStep | sheet_to_json.py:265-268 | deduplicating one more list key changes only that key |
| SheetRow.DedupLists | sheet_to_json.py:265-268 | the dedup loop deduplicates exactly the list keys' non-empty lists |
| SheetRow.DedupDone | sheet_to_json.py:264-270 | after the dedup loop the fields are those of the row's record |
| SheetRow.RowRecord | sheet_to_json.py:231-270 | defines the row's record: the processor's keys in order, each field after all rules, non-empty lists deduplicated |
| SheetRow.ProcessRow | sheet_to_json.py:231-270 | `_process_row` returns the record of the row |
| SheetRowProperties.RecordShape | sheet_to_json.py:233-235 | the record has exactly the processor's keys in order, with a list exactly for the keys a list rule names |
| SheetRowProperties.LastWriterWins | sheet_to_json.py:261-262 | a text field holds the value of the last rule that writes it |
| SheetRowProperties.NoWriterKeepsEmpty | sheet_to_json.py:233-262 | a text field has no written value exactly when no rule writes it |
| SheetRowProperties.ScalarField | sheet_to_json.py:231-270 | a text field of the record is its last writer's value, or `""` |
| SheetRowProperties.AccumulatedGrows | sheet_to_json.py:260 | an earlier column's contribution is a prefix of what later columns extend |
| SheetRowProperties.AccumulatedMembers | sheet_to_json.py:237-260 | a value is accumulated for a key exactly when some usable list cell of that key yields it |
| SheetRowProperties.AccumulatedAreNames | sheet_to_json.py:246-260 | every accumulated value is non-empty and stripped |
| SheetRowProperties.ListField | sheet_to_json.py:264-268 | a list field holds each accumulated value once, in order of first occurrence, and nothing else |
| SheetRowProperties.NoUsableCell | sheet_to_json.py:243-244 | a row without a usable cell gives the initial record |
| Sorting.SortDescSorted | sheet_to_json.py:226 | the sort orders by non-increasing key |
| Sorting.SortDesc | sheet_to_json.py:226 | the sort keeps the length; it inserts the elements in input order |
| Sorting.SortDescPerm | sheet_to_json.py:226 | the sort is a permutation of its input |
| Sorting.SortDescStable | sheet_to_json.py:226 | the elements of each key keep their input order: `reverse=True` stays stable |
| Sorting.InsertStable | sheet_to_json.py:226 | inserting places the new element after those already there with its key |
| SheetTable.SortKey | sheet_to_json.py:293-299 | a text ID that `int` accepts sorts by its value; a missing ID, a list ID or a text `int` rejects sorts as 0 |
| SheetTable.SortKeyOfNumeral | sheet_to_json.py:293-299 | a record whose ID is the numeral of n sorts by n |
| SheetTable.SortKeyMissing | sheet_to_json.py:293-299 | a missing or blank ID sorts as 0 |
| SheetTable.DataStart | sheet_to_json.py:215 | the slice start lies inside the sheet, including Python's negative starts |
| SheetTable.DataRows | sheet_to_json.py:215 | the data rows are a suffix of the sheet |
| SheetTable.DataRowsSkipHeader | sheet_to_json.py:215 | with a 1-based start row inside the sheet, exactly the rows from there on are read, and none when it lies past the end |
| SheetTable.Slice | sheet_to_json.py:220 | the slice `row[lo:hi]` with Python's clamping is no longer than the row; EndRowMeaning states which cells it holds |
| SheetTable.AnyFilled | sheet_to_json.py:220 | defines `any(cell.strip() …)`; AnyFilledMeaning states its meaning |
| SheetTable.AnyFilledMeaning | sheet_to_json.py:220 | `any(cell.strip() …)` holds exactly when some cell is not all whitespace |
| SheetTable.IsEndRow | sheet_to_json.py:220 | defines the end test: no cell of the end-check slice is non-blank; its meaning is stated by EndRowMeaning |
| SheetTable.EndRowMeaning | sheet_to_json.py:220 | a row ends the data exactly when each of its cells in the end-check columns is blank; missing cells count as blank |
| SheetTable.DataLength | sheet_to_json.py:218-221 | the number of rows read before the loop breaks is at most the number of data rows; DataLengthMeaning states where it stops |
| SheetTable.DataLengthMeaning | sheet_to_json.py:218-221 | no row before the data length is an end row, and the row at it, if any, is one |
| SheetTable.CollectRows | sheet_to_json.py:216-223 | the loop with `break` collects the records of the rows before the first end row, in order |
| SheetTable.Collected | sheet_to_json.py:216-223 | at most one record per data row |
| SheetTable.Process | sheet_to_json.py:207-229 | `process` returns the collected records sorted by decreasing ID |
| SheetTable.Table | sheet_to_json.py:207-229 | the sorted output has as many records as were collected |
| SheetTable.TableSize | sheet_to_json.py:215-223 | one record per data row before the end row, none for it or after it; the output is no longer than the sheet |
| SheetTable.TableSortedPermutation | sheet_to_json.py:226 | the output is ordered by decreasing ID and is a permutation of the collected records |
| SheetTable.TableStable | sheet_to_json.py:226 | records with the same ID keep their row order |
| Sarif.Rules | scripts/convert_shellcheck_to_sarif.py:50-64 | one rule per distinct rule id |
| Sarif.RuleId | scripts/convert_shellcheck_to_sarif.py:47 | a rule id is `SC` followed by at least one character |
| Sarif.Message | scripts/convert_shellcheck_to_sarif.py:54-57 | defines the message text: the finding's message, or `ShellCheck finding` when it has none |
| Sarif.RuleOf | scripts/convert_shellcheck_to_sarif.py:50-63 | the rule carries the finding's rule id, its help link is the wiki base followed by that id, and both descriptions agree |
| Sarif.SarifLevel | scripts/convert_shellcheck_to_sarif.py:66-72 | the level is always `error`, `warning` or `note` |
| Sarif.RegionOf | scripts/convert_shellcheck_to_sarif.py:87-96 | a missing end line or end column is the start line or start column |
| Sarif.ResultOf | scripts/convert_shellcheck_to_sarif.py:75-101 | the result names the rule its finding would create |
| Sarif.AddRule | scripts/convert_shellcheck_to_sarif.py:47-63 | a rule id not yet in the dict is added with the finding's rule, and a known one changes nothing, so the dict keeps first occurrences in insertion order |
| Sarif.Convert | scripts/convert_shellcheck_to_sarif.py:43-105 | one result per finding in input order, and the rules are the first-occurrence rules of the distinct ids |
| Sarif.LoadFindings | scripts/convert_shellcheck_to_sarif.py:17-20 | only a failure other than a missing file or invalid JSON is an error |
| Sarif.ConvertInput | scripts/convert_shellcheck_to_sarif.py:17-105 | a missing file or invalid JSON gives no rules and no results; other failures propagate; parsed findings are converted |
| Sarif.NoFindings | scripts/convert_shellcheck_to_sarif.py:46 | no findings give no rules and no results |
| Sarif.RulesAreFirstOccurrences | scripts/convert_shellcheck_to_sarif.py:46-64 | each rule is built from the first finding with its id; no id appears twice; rules come in first-occurrence order |
| Sarif.ResultsMatchRules | scripts/convert_shellcheck_to_sarif.py:46-104 | every result's rule id has a rule, and every rule is used by some result |
| Sarif.RuleOfCode | scripts/convert_shellcheck_to_sarif.py:47-63 | a coded finding's rule id is `SC` and the code; its help link is the wiki URL and the id; both descriptions are the message |
| Sarif.RuleIdInjective | scripts/convert_shellcheck_to_sarif.py:47 | two findings share a rule id exactly when their codes agree; a missing code (`SC0000`) differs from code 0 (`SC0`) |
| Sarif.LevelMapping | scripts/convert_shellcheck_to_sarif.py:66-72 | error stays error, info and style become note, and anything else or nothing becomes warning |
| Sarif.RegionDefaults | scripts/convert_shellcheck_to_sarif.py:75-99 | start line and column default to 1, the end line and column to the start, the uri to `unknown` and the message to `ShellCheck finding` |
| Sarif.EmptyFindingResult | scripts/convert_shellcheck_to_sarif.py:75-101 | a finding with no fields becomes rule SC0000, warning, region 1:1-1:1 in `unknown` |
| Sarif.RepeatedCodeExample | scripts/convert_shellcheck_to_sarif.py:50-64 | two findings with code 2086 give one rule carrying the first one's message |

## Left out

- Reading the configuration (`load_config`, `load_and_validate_config`), `GoogleApiService`, `fetch_sheet_data`, `process_and_save_data` and `main` are not modelled. They are file, YAML and Google API I/O: the sheet arrives as a parameter, a grid of strings.
- The `print` calls in `process` and in the converter are left out because they are console output.
- The JSON decoding of the ShellCheck file, the fixed tool-metadata wrapper of the SARIF report (`$schema`, version, driver name, `columnKind`) and the file write are left out. The read is reduced to its four outcomes (`Sarif.ReadOutcome`), which model the `try`/`except` at lines 17-20.
- Sarif.Finding: a JSON input that is not a list of objects, and fields present with `null` or non-integer values, are not modelled. `dict.get` returns such values unchanged; the model gives every field either its integer or text value or absence.
- Sarif.RuleId: the code is rendered as `str` of an integer, as ShellCheck emits it; a string-valued code is not modelled.
- SheetTable.SortKey: `int()` of a text ID is modelled as surrounding whitespace, an optional sign and ASCII digits. Underscores between digits and non-ASCII Unicode digits, which `int()` also accepts, are not modelled.
- SheetTable.SortKey: the limit on integer string conversion that Python 3.11 and later apply is not modelled. The source needs such a version, since it imports `typing.NotRequired` (`sheet_to_json.py:14`). With the default limit, `int()` of a numeral of more than 4300 digits raises `ValueError`, so `_sort_key` returns 0 where the model gives the value.
- Sarif.RuleId: under the same limit, an input holding an integer of more than 4300 digits makes `json.loads` (line 18) raise a plain `ValueError`. The `except` at line 19 does not catch it, so such input is `ReadOutcome.OtherFailure` and gives `Err`. The model does not bound the codes of `Parsed` findings, so `RuleId` renders every code it is given.
- SheetRow.ValidConfig: column labels are required to be non-empty ASCII letters. An empty label would make `_col_to_index` return -1. `_process_row` would then read the last cell of a non-empty row and raise `IndexError` on an empty row. A non-letter label gives arbitrary indices. Neither case is modelled.
- SheetRow.ValidConfig: each key must be consistently a list key or a text key. A text column writing to a list key would make the deduplication iterate over the characters of a string; that case is excluded by this precondition.
- The column mapping is a sequence of rules in dictionary order. The model does not require the column labels to be distinct, which a Python dict guarantees.
- Sorting.SortDesc: `list.sort` is modelled as a pure function, an insertion sort, with its sortedness, permutation and stability proved. The in-place mutation of `processed_list` is not modelled, since the source relies on the built-in.
- ArraySplit.RawPieces: the `\s*` that `re.split` consumes after a separating comma is kept on the next piece instead. Every caller strips the pieces, and `Strings.StripIgnoresLeadingSpace` shows that the result is the same.
