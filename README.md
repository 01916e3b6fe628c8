# arhangel_calendar: the calendar form, modelled in Dafny

`CustomCalendarForm` is a Drupal form. It shows one or more calendar tables. Each table row is one year: twelve month fields, four quarter columns and a year-to-date (YTD) column. Three pieces of the form compute something, and this project models those three and proves what they promise.

- **Growth counters.** The form state holds a table counter `calendar` and one row counter `count<i>` per table.
  - `buildForm` replaces an empty counter by 1.
  - It lays out rows `j = n .. 1` of each table, with row j showing the year `currentYear - j + 1`.
  - "Add Table" (`addTableCallback`) increments `calendar`.
  - "Add Year" (`addRowCallback`) increments the row counter of the table whose index it reads back from its own button name, `'line ' . $i`, with `explode(' ', ...)`.
- **Quarter and YTD columns.** These are filled in when the form is rebuilt after "Submit".
  - A quarter is blank when its three months sum to 0. Otherwise it is `round((sum + 1) / 3, 2)`.
  - The YTD is blank when the four quarter values sum to 0. Otherwise it is `round((sum + 1) / 4, 2)`.
- **`submitForm`'s verdict.** The month fields of each table are flattened in form order.
  - The first and last non-empty places are recorded, using PHP `empty`, for which `''` and `"0"` are empty.
  - Leading and trailing `''` are unset, and a `''` left in between sets `$errors`.
  - When there are several tables and some row counter equals 1, every table must start and end at the same `(row, month)` as table 0.
  - The function returns `$errors`.

Modules:

- `Cells` (`cells.dfy`) holds the month field: `Blank` (the string `''`) or `Num(hundredths)`. It also has PHP `empty` and `floatval` on a field.
- `Derivation` (`derivation.dfy`) models the quarter and YTD columns.
  - Amounts are exact hundredths.
  - PHP `round(x, 2)` becomes `RoundDiv`, which rounds half away from zero.
  - The "+ 1" is kept as the form computes it.
- `ButtonNames` (`button_names.dfy`) models the button name `'line ' . $i`, `explode(' ', ...)` and the counter key `$table[1]`.
- `Validation` (`validation.dfy`) models the loops of `submitForm`:
  - the marker scan;
  - the two `unset` loops over the PHP array, modelled as a `map<int, Cell>` from which keys are removed;
  - `in_array('', ...)`;
  - the cross-table comparison.
- `CalendarForm` (`calendar_form.dfy`) holds the form state as a class, `CalendarFormState`. Its fields are the counters. The class has the two callbacks, the counter and row-layout part of `buildForm`, and `submitForm`.

Conventions:

- **Unset counters.** A counter that was never set is 0 in the model. PHP's `null` behaves as 0 in every place the form reads a counter: `empty`, `++`, `> 1` and `in_array(1, ...)`.
- **Undefined array entries.** An undefined `$start[$i]` or `$end[$i]` is `None`.
- **Marker comparison.** Two markers compare with `!=` as values, so a marker present on one side only is a mismatch.
- **The submit test.** `buildForm` tests the triggering button with `isset($name) == 'main-submit'`. It then compares `$position === 'main-submit'`. Together the two tests hold exactly when the button is "main-submit", and `BuildForm` models that combined effect.

`addRowCallback` has no error path for a table that does not exist: it increments a possibly-unset counter (`null++` is 1). So `AddRowCallback` has no precondition and no error path.

## Model

| member | source | states |
|---|---|---|
| Cells.Value | arhangel_calendar/src/Form/CustomCalendarForm.php:149 | `floatval` of a field: `''` reads as 0, a number as its value |
| Cells.IsPhpEmpty | arhangel_calendar/src/Form/CustomCalendarForm.php:341 | PHP `empty` on a field holds exactly when its value is 0 (`''` or `"0"`) |
| Derivation.RoundDiv | arhangel_calendar/src/Form/CustomCalendarForm.php:152 | `round(n/d)`: the result is within half of n/d, a half rounded away from zero, with the sign of n |
| Derivation.QuarterSumOfThree | arhangel_calendar/src/Form/CustomCalendarForm.php:146-150 | a quarter's sum is the values of its three months added, a blank counting as 0 |
| Derivation.QuarterCell | arhangel_calendar/src/Form/CustomCalendarForm.php:151-156 | a quarter is blank exactly when its sum is 0; otherwise 3 × quarter is within 0.01 of sum + 1.00 |
| Derivation.YtdCell | arhangel_calendar/src/Form/CustomCalendarForm.php:162-167 | YTD is blank exactly when the quarter sum is 0; otherwise 4 × YTD is within 0.02 of sum + 1.00, a half going away from zero |
| Derivation.DeriveRow | arhangel_calendar/src/Form/CustomCalendarForm.php:138-168 | the accumulating loops give four quarters, each blank exactly when its months sum to 0, and the YTD of the quarter values; together they equal `Derive(months)` |
| Derivation.EmptyQuarterIsBlank | arhangel_calendar/src/Form/CustomCalendarForm.php:146-156 | a quarter whose three months are all `''` or `"0"` shows blank, never 0.00 |
| Derivation.QuarterZeroOnlyNearMinusOne | arhangel_calendar/src/Form/CustomCalendarForm.php:151-152 | a quarter shows 0.00 exactly when its months sum to between -1.01 and -0.99, so a blank quarter and a zero quarter are never confused |
| Derivation.EmptyRowDerivesBlank | arhangel_calendar/src/Form/CustomCalendarForm.php:138-168 | a row with nothing entered derives four blank quarters and a blank YTD |
| Derivation.BlankCountsAsZero | arhangel_calendar/src/Form/CustomCalendarForm.php:149 | only a month's `floatval` matters: rows whose months have the same values derive the same columns |
| Derivation.WorkedExample | arhangel_calendar/src/Form/CustomCalendarForm.php:138-168 | months 100, 0, 0, 50, 0 … 0, 50 give 33.67, 17.00, blank, 17.00 and YTD 17.17 |
| ButtonNames.NatToString | arhangel_calendar/src/Form/CustomCalendarForm.php:91 | the table index in a button name is written as decimal digits, with no leading zero (the only string starting with "0" is "0" itself, for index 0) |
| ButtonNames.DigitsRoundTrip | arhangel_calendar/src/Form/CustomCalendarForm.php:91 | reading the digits of an index back gives the index |
| ButtonNames.NatToStringInjective | arhangel_calendar/src/Form/CustomCalendarForm.php:119-123 | two tables have the same counter key `count<i>` exactly when they are the same table |
| ButtonNames.FirstSpace | arhangel_calendar/src/Form/CustomCalendarForm.php:267 | the split point is a space with no space before it |
| ButtonNames.Split | arhangel_calendar/src/Form/CustomCalendarForm.php:267 | `explode(' ', s)` gives at least one piece, no piece contains a space, and a string without a space is its only piece |
| ButtonNames.SplitJoin | arhangel_calendar/src/Form/CustomCalendarForm.php:267 | splitting loses nothing: joining the pieces with spaces gives the name back |
| ButtonNames.SplitAfterWord | arhangel_calendar/src/Form/CustomCalendarForm.php:267 | a space-free word followed by a space splits off as exactly the first piece |
| ButtonNames.ButtonName | arhangel_calendar/src/Form/CustomCalendarForm.php:91 | the name `'line ' . $i` explodes into exactly the pieces "line" and the digits of i |
| ButtonNames.TableKey | arhangel_calendar/src/Form/CustomCalendarForm.php:266-268 | `explode(' ', $name)[1]`: the key has no space, and a name without a space gives the empty key (the undefined index reads as null) |
| ButtonNames.ButtonNameDecodes | arhangel_calendar/src/Form/CustomCalendarForm.php:266-268 | `explode(' ', 'line ' . $i)[1]` is the index i as a string, the key `addRowCallback` and `formReturn` use |
| ButtonNames.ButtonSelectsOneTable | arhangel_calendar/src/Form/CustomCalendarForm.php:268-270 | the "Add Year" button of table k names the counter of table i exactly when i = k |
| CalendarForm.YearOfRow | arhangel_calendar/src/Form/CustomCalendarForm.php:127 | row 1 shows the current year and every row above it an earlier year |
| CalendarForm.AtLeastOne | arhangel_calendar/src/Form/CustomCalendarForm.php:121-124 | an empty counter becomes 1 and a non-empty one is kept |
| CalendarForm.TableRowsAreConsecutiveYears | arhangel_calendar/src/Form/CustomCalendarForm.php:126-128 | a table of n rows shows the years currentYear - n + 1 … currentYear, ascending by one, with keys n … 1 |
| CalendarForm.BuildTable | arhangel_calendar/src/Form/CustomCalendarForm.php:126-169 | the row loop lays out rows j = n … 1 with their years; the derived columns are added exactly when the trigger is "main-submit" |
| CalendarForm.CalendarFormState.BuildForm | arhangel_calendar/src/Form/CustomCalendarForm.php:75-128 | at least one table; each table's row counter is its old value or 1 if empty; no other counter changes; each table is laid out as `TableRows` |
| CalendarForm.CalendarFormState.AddRowCallback | arhangel_calendar/src/Form/CustomCalendarForm.php:265-272 | only the counter named by the button changes, by +1 (unset becomes 1); for the button of table k, table k gains one row and no other table's counter changes |
| CalendarForm.CalendarFormState.AddTableCallback | arhangel_calendar/src/Form/CustomCalendarForm.php:279-284 | the table counter grows by exactly 1 and no row counter changes |
| CalendarForm.CalendarFormState.SubmitForm | arhangel_calendar/src/Form/CustomCalendarForm.php:324-394 | `$errors` is true exactly when some table has an interior `''`, or when there are several tables, some row counter is 1 and some table's start or end differs from table 0's |
| Validation.EntriesMatchCells | arhangel_calendar/src/Form/CustomCalendarForm.php:338-349 | the placed entries and the flat `$rows` list describe the same fields in the same order |
| Validation.FirstMarkerMeaning | arhangel_calendar/src/Form/CustomCalendarForm.php:341-343 | there is no start marker exactly when every field is empty (`''` or `"0"`); otherwise it marks a non-empty field with only empty fields before it |
| Validation.StartIsFirstFilled | arhangel_calendar/src/Form/CustomCalendarForm.php:341-343 | the start marker is the place of the first non-empty field |
| Validation.LastMarkerMeaning | arhangel_calendar/src/Form/CustomCalendarForm.php:344-346 | there is no end marker exactly when every field is empty; otherwise it marks a non-empty field with only empty fields after it |
| Validation.EndIsLastFilled | arhangel_calendar/src/Form/CustomCalendarForm.php:344-346 | the end marker is the place of the last non-empty field |
| Validation.ScanRow | arhangel_calendar/src/Form/CustomCalendarForm.php:339-348 | the month loop of a row appends its fields and leaves the markers of everything scanned so far |
| Validation.ScanTable | arhangel_calendar/src/Form/CustomCalendarForm.php:337-350 | the nested loops give the flat field list and the first and last non-empty places of the table |
| Validation.TrimFrontMeaning | arhangel_calendar/src/Form/CustomCalendarForm.php:352-359 | the first unset loop keeps a suffix, removes only `''`, and stops at a field that is not `''` |
| Validation.TrimBackMeaning | arhangel_calendar/src/Form/CustomCalendarForm.php:360-367 | the second unset loop keeps a prefix, removes only `''`, and stops at a field that is not `''` |
| Validation.TrimFrontAt | arhangel_calendar/src/Form/CustomCalendarForm.php:352-359 | the front trim drops exactly the leading run of `''` |
| Validation.TrimBackAt | arhangel_calendar/src/Form/CustomCalendarForm.php:360-367 | the back trim drops exactly the trailing run of `''` |
| Validation.TrimIsWindow | arhangel_calendar/src/Form/CustomCalendarForm.php:352-367 | the two loops keep exactly the fields from the first to the last that is not `''` |
| Validation.UnsetFirst | arhangel_calendar/src/Form/CustomCalendarForm.php:354 | unsetting the lowest kept index leaves the window one shorter at the front |
| Validation.UnsetLast | arhangel_calendar/src/Form/CustomCalendarForm.php:362 | unsetting the highest kept index leaves the window one shorter at the back |
| Validation.WindowHasBlank | arhangel_calendar/src/Form/CustomCalendarForm.php:368 | `in_array('', $rows)` on the kept entries is `''` occurring in the kept fields |
| Validation.TrimAndCheck | arhangel_calendar/src/Form/CustomCalendarForm.php:351-370 | the two unset loops on the PHP array, then `in_array('', ...)`, flag the table exactly when its trimmed fields contain `''` |
| Validation.TrimPlacement | arhangel_calendar/src/Form/CustomCalendarForm.php:352-367 | the trimmed fields are a contiguous run, everything outside it is `''`, and its ends are not `''` |
| Validation.GapFromWitnesses | arhangel_calendar/src/Form/CustomCalendarForm.php:368-370 | a `''` strictly between two fields that are not `''` is flagged |
| Validation.WitnessesOfGap | arhangel_calendar/src/Form/CustomCalendarForm.php:368-370 | a flagged table has a `''` strictly between two fields that are not `''` |
| Validation.GapBetweenValues | arhangel_calendar/src/Form/CustomCalendarForm.php:351-370 | a table is flagged exactly when some `''` lies strictly between two fields that are not `''` |
| Validation.NoBlankNoGap | arhangel_calendar/src/Form/CustomCalendarForm.php:351-370 | a table with no `''` passes the gap rule |
| Validation.AllBlankNoGap | arhangel_calendar/src/Form/CustomCalendarForm.php:351-370 | a table left entirely blank passes the gap rule |
| Validation.TrimIdempotent | arhangel_calendar/src/Form/CustomCalendarForm.php:352-367 | trimming what is already trimmed changes nothing |
| Validation.TrimKeepsNonBlank | arhangel_calendar/src/Form/CustomCalendarForm.php:353-362 | only `''` is ever removed: every other field, `"0"` included, keeps its number of occurrences |
| Validation.SomeTableHasGapMeaning | arhangel_calendar/src/Form/CustomCalendarForm.php:336-371 | the gap part of `$errors` holds exactly when some submitted table is flagged |
| Validation.CheckTable | arhangel_calendar/src/Form/CustomCalendarForm.php:337-370 | one pass of the table loop yields that table's start, end and gap flag |
| Validation.CheckTables | arhangel_calendar/src/Form/CustomCalendarForm.php:336-371 | the table loop fills `$start`/`$end` with each table's markers (null past the last table) and sets `$errors` exactly when some table is flagged |
| Validation.CompareRanges | arhangel_calendar/src/Form/CustomCalendarForm.php:377-381 | the comparison loop finds a mismatch exactly when some table 1 … n-1 starts or ends elsewhere than table 0 |
| Validation.ScenarioFilledRowIsValid | arhangel_calendar/src/Form/CustomCalendarForm.php:330-393 | one table with one fully filled row (some months `"0"`) is valid |
| Validation.ScenarioInteriorBlankIsInvalid | arhangel_calendar/src/Form/CustomCalendarForm.php:368-370 | 5.00 in January and December with blanks between is invalid |
| Validation.ScenarioDifferentRangesAreInvalid | arhangel_calendar/src/Form/CustomCalendarForm.php:372-383 | two full rows in table 0 and a one-row table 1 filled June to August are invalid, because the starts differ |

## Left out

- Render arrays are left out: `addNewRow`, headers, captions, `#ajax`, `#prefix`/`#suffix` wrappers and the attached library. They are markup with no computed behaviour. `BuiltRow` keeps only a row's key, year and derived columns.
- `formReturn` and `tableReturn` are AJAX responses that return parts of the render array. Only the name decode that `formReturn` shares with `addRowCallback` is modelled (`ButtonNames.TableKey`).
- Several framework parts are left out, because they are framework plumbing:
  - `\Drupal::messenger()` status and error messages;
  - `setRebuild`;
  - `create` and constructor dependency injection;
  - `getFormId`;
  - the empty `validateForm`.
- `floatval` and `round` on IEEE-754 doubles are not modelled. Amounts are exact hundredths and rounding is exact half-away-from-zero.
- Parsing of arbitrary field text is not modelled: a field is `''` or a number. Other spellings of zero (`"0.0"`, `"00"`) are not PHP-empty but have value 0. The model does not tell them apart from `"0"`.
- `date('Y')` is the parameter `currentYear`. The triggering button's name is the parameter `trigger`. The submitted values are parameters too: a map from (table, row) to month fields in `BuildForm`, and a list of tables of rows in `SubmitForm`.
- A marker's month is its index 0 … 11 rather than its name `'jan'` … `'dec'`. The two correspond one to one.
- PHP notices for undefined indexes are not modelled. The undefined value itself is modelled (`None`, or 0 for a counter).
