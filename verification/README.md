# Census sheet parser, modelled in Dafny

This project models the parsing core of `src/parser.py` in the olap-learn
repository. That code reads two census workbooks into nested maps, which
are then loaded into an OLAP star schema:

- `parse_age_group` turns an age-bucket label ("0 - 4", "85 и более",
  "100+", "5") into an inclusive interval of ages, or nothing.
- `calculate_year_range` turns an age interval into the birth-year interval
  for a census year, written as the text `"(lower, upper)"`.
- `read_nationality_data` is a four-state scanner over the rows of the
  nationality sheet. It builds
  `region -> (total population, nation -> population)`.
- `read_age_sex_data` is a scanner over the rows of the age/sex sheet, with
  one boolean mode and a one-row look-ahead. It builds
  `region -> (age label -> (male, female))`.

The modules are:

- `Options`: the option type.
- `Text`: the string operations the parser relies on. These are Python's
  `str.isspace` and `str.isdigit`, `strip`, `lower`, substring search,
  `split()[0]` and `split('.')[0]`, and the cell cleaning
  `str(v).replace('\n', ' ').strip()`.
- `AgeGroups`: `parse_age_group`. Each regular expression is written twice:
  as a greedy matcher, and as the split of the label that a regex match
  stands for. The lemmas prove that the two agree.
- `YearRanges`: `calculate_year_range`. The arithmetic and the text are
  kept apart, and there is a reader for the text.
- `NationalityScanner` and `AgeSexScanner`: the two sheet scanners.
  - A sheet is a sequence of rows of raw cells, with `None` for a cell that
    pandas reads as missing.
  - Each row is cleaned as the source cleans it. It is then classified once
    into a `RowView`, which records which of the source's tests the row
    passes.
  - A pure `Step` function gives the effect of one classified row.
  - `Run` folds `Step` over the first `n` rows.
  - `NationalityData` and `AgeSexData` are the maps left after the last
    row.
  - The methods `ReadNationalityData` and `ReadAgeSexData` are the source's
    loops.
- `NationalityExample` and `AgeSexExample`: one small sheet of each kind,
  read end to end.

Where the source's own comments promise more than its code does, the model
follows the code:

- The comment on line 252 of `src/parser.py` says the
  "Городское и сельское" row is skipped. The `continue` on that line only
  moves on from the header row itself. The confirming row comes next and is
  processed like any other row while the region is being read. It is
  stored only if its label parses as an age group, which a text label never
  does.
- The docstring on line 10 promises the pair
  `(нижняя_граница, верхняя_граница)`, that is, (lower bound, upper bound).
  Lines 29-34 return the two numbers of a range in the order they are
  written, so "10 - 4" gives `(10, 4)`, whose first number is the larger.
  `RangeLabelRoundTrip` states this order.
- In the nationality example sheet, the marker row holds only the phrase
  the scanner looks for, "Указавшие национальную".

## Model

| member | source | states |
|---|---|---|
| AgeGroups.ParseAgeGroupRecognizes | src/parser.py:8-44 | The result is `iv` exactly when the stripped label is recognized as `iv`: open-ended if that pattern matches, otherwise a range if that pattern matches, otherwise a single age anchored at the end. So the result is `None` exactly when none of the three patterns matches. |
| AgeGroups.ParseAgeGroupValueRecognizes | src/parser.py:14-44 | On any Python value the result is `iv` exactly when the value is a string whose stripped text is recognized as `iv`. So a value that is not a string gives `None`. |
| AgeGroups.RangeComplete | src/parser.py:29-34 | Every split of the label as digits, whitespace, a dash of the class `[-–—]`, whitespace and a maximal run of digits is the one the matcher finds. The result is the two numbers in textual order. |
| AgeGroups.RangeCorrect | src/parser.py:29-34 | The range matcher reports `(a, b)` exactly when the label splits as digits of value a, whitespace, a dash, whitespace and a maximal run of digits of value b. |
| AgeGroups.RangeSound | src/parser.py:29-34 | Every range the matcher reports is such a split of the label. |
| AgeGroups.RangeNotOpenEnded | src/parser.py:21-34 | A label that splits as a range never matches the open-ended pattern, so the range pattern decides it. |
| AgeGroups.WholeRangeParses | src/parser.py:18-34 | A label that splits as a range to its end parses as that range. |
| AgeGroups.RangeLabelRoundTrip | src/parser.py:29-34 | For any two numbers, any whitespace and any of the three dashes, the written-out range label parses back to the two numbers, in the order written. |
| AgeGroups.OpenEndedCorrect | src/parser.py:21-26 | The open-ended matcher reports N exactly when the label splits as digits of value N, whitespace and one of "и более", "и старше", "+" in any letter case. |
| AgeGroups.WholeOpenEndedParses | src/parser.py:18-26 | A label the open-ended pattern matches, and that does not end in whitespace, parses as `(N, 120)`. |
| AgeGroups.OpenEndedLabelRoundTrip | src/parser.py:21-26 | "N и более", "N и старше" and "N+", with any whitespace after N, parse back to `(N, 120)` for every N. |
| AgeGroups.SingleComplete | src/parser.py:37-41 | On a stripped label, every split as digits, whitespace, an optional "лет"/"ле" and the end anchor is the one the matcher finds. The final-newline case of `$` cannot occur after stripping. |
| AgeGroups.SingleSound | src/parser.py:37-41 | Every single age the matcher reports is such a split of the label. |
| AgeGroups.SingleCorrect | src/parser.py:37-41 | On a stripped label, the single-age matcher reports N exactly when the label splits as digits of value N, whitespace, an optional "лет"/"ле" and the end anchor. |
| AgeGroups.SingleLabelRoundTrip | src/parser.py:37-41 | A bare number N parses back to `(N, N)`. |
| AgeGroups.NumberIsStripped | src/parser.py:18 | A decimal number neither starts nor ends with whitespace, so `strip` leaves a number label as it is. |
| AgeGroups.PaddingIgnored | src/parser.py:18 | Whitespace around a label does not change how it parses. |
| AgeGroups.NoLeadingDigitNoAge | src/parser.py:21-44 | Every pattern starts with `\d+`, so a stripped label that does not start with a digit gives `None`. |
| AgeGroups.OlderWordHead | src/parser.py:21 | A string the alternation `(и более\|и старше\|\+)` matches starts with a character that is neither a digit nor whitespace, and which is 'и' (ignoring case) or '+'. |
| AgeGroups.ExampleDocRange | src/parser.py:11 | "0 - 4" gives `(0, 4)`. |
| AgeGroups.ExampleAndMore | src/parser.py:11 | "85 и более" gives `(85, 120)`. |
| AgeGroups.ExampleTightRange | src/parser.py:325 | "15-19" gives `(15, 19)`. |
| AgeGroups.ExampleAndOlder | src/parser.py:325 | "75 и старше" gives `(75, 120)`. |
| AgeGroups.ExampleUnpaddedRange | src/parser.py:325 | "60 - 64", the demo label " 60 - 64 " without its padding, gives `(60, 64)`. |
| AgeGroups.ExampleNotAnAge | src/parser.py:325 | "Некорректно" gives `None`. |
| AgeGroups.ExampleSingleAge | src/parser.py:325 | "5" gives `(5, 5)`. |
| AgeGroups.ExamplePlus | src/parser.py:325 | "100+" gives `(100, 120)`. |
| YearRanges.CalculateYearRange | src/parser.py:54-55 | A birth year lies in the year interval exactly when its age lies in the age interval. The year interval is ordered exactly when the age interval is, and it is just as wide. |
| YearRanges.YearRangeRoundTrip | src/parser.py:56 | The text `"(lower, upper)"` of any year interval, negative years included, reads back as that interval. |
| YearRanges.ReadIntOf | src/parser.py:56 | Python's `str` of an integer, not followed by a digit, reads back as that integer. |
| YearRanges.YearRangeLabelsDistinct | src/parser.py:56 | Distinct year intervals never share a text, so the text is a sound key for the year dimension. |
| YearRanges.AgesRecoverable | src/parser.py:47-59 | The text computed from an age interval and a census year reads back as `(base - upper, base - lower)`. |
| YearRanges.YearRangeExampleYoungest | src/parser.py:47-59 | Ages 0-4 with the default year 2010 give "(2006, 2010)". |
| YearRanges.YearRangeExampleOldest | src/parser.py:47-59 | Ages 85-120 with the default year 2010 give "(1890, 1925)". |
| Text.CleanIdempotent | src/parser.py:125 | Cleaning a name that is already clean changes nothing, so the second `replace('\n', ' ').strip()` of a region or nation name is a no-op. |
| Text.TokenDigitsFromText | src/parser.py:238 | A text without a digit has a first word without a digit. |
| NationalityScanner.Classify | src/parser.py:99-165 | A row that passes the region test names a region longer than three characters. A row that passes the nation test names a non-empty nation outside the stop list. |
| NationalityScanner.StepFederalDistrict | src/parser.py:99-109 | A federal-district row resets the scan to searching for a region, with no current region, from any state, and keeps the data. |
| NationalityScanner.StepRegisters | src/parser.py:112-135 | A region is registered only by a region row read while searching for a region, and only under a name not yet known. It gets the row's count as total and no nations, and the scan then waits for that region's marker. |
| NationalityScanner.StepKeepsTotals | src/parser.py:124-135 | No row forgets a region or changes its total. |
| NationalityScanner.StepOpensBlock | src/parser.py:138-142 | Only a marker row, read while waiting for a marker, opens a nation block. |
| NationalityScanner.StepWaitsForMarker | src/parser.py:138-153 | While waiting for the marker, every row other than a marker or federal-district row is passed over, nation-like rows included. |
| NationalityScanner.StepStoresNation | src/parser.py:155-178 | A region's entry changes only in that region's nation block, by a nation row with a positive count, which stores that one nation. |
| NationalityScanner.StepBlankCloses | src/parser.py:180-187 | A row with A, C and D missing closes a nation block. The scan then searches for a region, with no current region, and keeps the data. |
| NationalityScanner.StepClosesBlock | src/parser.py:180-187 | Only a federal-district row or a blank row closes a nation block, and closing it drops the current region. |
| NationalityScanner.StepInv | src/parser.py:76-187 | One row keeps the invariant. There is a current region exactly in the marker and nation modes, and it is always registered. Every name is longer than three characters. Every stored nation has a non-empty name and a positive count. |
| NationalityScanner.RunInv | src/parser.py:76-187 | The invariant holds after every prefix of the sheet. |
| NationalityScanner.NationTargetRegistered | src/parser.py:170-175 | The "current region missing" error branch is never taken. In the nation block, the current region is registered. |
| NationalityScanner.QuietBeforeFederalDistrict | src/parser.py:81-109 | Rows before the first federal-district row leave the scanner in its initial state. |
| NationalityScanner.TotalsStable | src/parser.py:126-135 | Once a region is known it stays known, with the total it was first registered with. Duplicate region rows are ignored. |
| NationalityScanner.RegionProvenance | src/parser.py:112-135 | Every registered region comes from a region row that named it while the scan searched for a region and before it was known. That row's count is the total. |
| NationalityScanner.RegionRowRegisters | src/parser.py:112-135 | A region row read while searching for a region always leaves its name registered from then on. If the name was new, its total is that row's count. |
| NationalityScanner.NationProvenance | src/parser.py:155-178 | Every stored nation count comes from the last nation row that named that nation, with a positive count, in that region's nation block. |
| NationalityScanner.NationStored | src/parser.py:155-178 | A nation row with a positive count, read in a region's nation block, leaves its count stored under that nation until a later such row for the same nation replaces it. |
| NationalityScanner.NationCountIsLastStored | src/parser.py:155-178 | A nation is stored under a region with a count exactly when some nation row stored that count there and no later row stored that nation again. |
| NationalityScanner.StoredNationsValid | src/parser.py:157-171 | On classified rows, every stored count is positive and no stop-list heading is stored as a nation. |
| NationalityScanner.NationsValid | src/parser.py:157-171 | On a sheet, every stored nation count is positive and every stored nation name is outside the stop list. |
| NationalityScanner.RegionsFromRegionRows | src/parser.py:112-129 | A region is in the result exactly when some row that passes the region test, is not a federal-district row and is read while searching for a region, has it in column C. Its total is column D of such a row read while the name was not yet known, which is the first one. |
| NationalityScanner.NationRowView | src/parser.py:155-178 | A sheet row is a nation row with a positive count, read in a region's nation block, exactly when its classified view stores that count there. |
| NationalityScanner.LastNationRowView | src/parser.py:155-178 | A sheet row is the last such row for a nation exactly when its view is the last to store that nation. |
| NationalityScanner.NationsFromNationRows | src/parser.py:155-178 | A region's entry holds a count for a nation exactly when the last nation row with a positive count naming that nation in the region's nation block has that count in column D. Later rows for the nation with count 0 change nothing. |
| NationalityScanner.ReadNationalityData | src/parser.py:70-200 | The loop returns the map the scanner defines. Every region name is longer than three characters. Every nation count is positive. |
| NationalityExample.SheetRead | src/parser.py:64-200 | A sheet with a federal-district row, a region, a marker, a nation with a positive count, a nation with count 0 and a blank row reads as `{"Sample Region": (1000, {"Russians": 800})}`. |
| AgeSexScanner.Classify | src/parser.py:237-247 | A row classified as a header names a region longer than five characters that is not an age group. |
| AgeSexScanner.BlankRowView | src/parser.py:276 | A row with D, I and J missing is blank, and it is neither a header nor a measured row. |
| AgeSexScanner.HeaderNeedsConfirmation | src/parser.py:237-247 | A row is a header exactly when its column D is a region candidate and the next row's column D announces "городское и сельское". So the last row is never a header. |
| AgeSexScanner.StepHeader | src/parser.py:248-252 | A confirmed header starts reading that region with an empty map. It replaces whatever was stored under the same name, in any state. |
| AgeSexScanner.StepRegisters | src/parser.py:248-249 | No row forgets a region, and only a header adds one, under its name. |
| AgeSexScanner.StepStoresAge | src/parser.py:255-272 | Apart from a header, a row changes a region's map only while that region is read. It does so by storing the counts of a measured row under its raw label, and the label must parse as an age group. |
| AgeSexScanner.StepBlankEnds | src/parser.py:276-281 | While a region is read, a blank row ends the region if the region already has an entry. Otherwise the blank row changes nothing. |
| AgeSexScanner.StepClosesRegion | src/parser.py:276-281 | Only a blank row ends a region, and only after the region has an entry. Ending it drops the current region and keeps the data. |
| AgeSexScanner.StepInv | src/parser.py:219-281 | One row keeps the invariant. The scanner reads exactly when there is a current region, and that region is registered with a name longer than five characters. |
| AgeSexScanner.RunInv | src/parser.py:219-281 | The invariant holds after every prefix of the sheet. |
| AgeSexScanner.ReadingTargetRegistered | src/parser.py:269-277 | The look-ups `data[current_region]` never fail: while a region is read, it is registered. |
| AgeSexScanner.RegionProvenance | src/parser.py:248-249 | Every region in the map was named by a header row. |
| AgeSexScanner.HeaderKept | src/parser.py:248-249 | A confirmed header leaves its region registered from then on. |
| AgeSexScanner.AgeProvenance | src/parser.py:261-269 | Every entry of a region's map was stored by the last row that stored that label, a measured row with an age-group label, read in that region's block after its last header. |
| AgeSexScanner.AgeStored | src/parser.py:261-269 | A measured row whose label is an age group, read in a region's block, leaves its counts stored under its label until a later header for the region or a later row with the same label replaces them. |
| AgeSexScanner.AgeCountIsLastStored | src/parser.py:248-269 | A label is stored under a region with a pair of counts exactly when some measured row stored that pair there, and after it no header for the region came and no row stored that label again. |
| AgeSexScanner.HeaderRowView | src/parser.py:237-247 | A row of the sheet is a confirmed header for a region exactly when its classified view is one. |
| AgeSexScanner.RegionsFromHeaders | src/parser.py:237-249 | A region is in the result exactly when it is column D of some region-candidate row whose next row announces the urban-and-rural breakdown. |
| AgeSexScanner.MeasuredRowView | src/parser.py:261-269 | A sheet row is a measured row with an age-group label, read in a region's block, exactly when its classified view stores those counts there. |
| AgeSexScanner.LastMeasuredRowView | src/parser.py:248-269 | A sheet row is the last such row for a label, with no later header for the region, exactly when its view is the last to store that label. |
| AgeSexScanner.AgesFromMeasuredRows | src/parser.py:248-269 | A region's map holds a pair of counts under a label exactly when the last row with that label whose I and J are digit counts, read in the region's block after its last header, has those numbers. Later rows with the label but without digit counts change nothing. Every stored label parses as an age group. |
| AgeSexScanner.ReadAgeSexData | src/parser.py:217-291 | The loop returns the map the scanner defines, and every region name is longer than five characters. |
| AgeSexExample.SheetRead | src/parser.py:203-291 | A sheet with a region header, its urban-and-rural row, the row "0 - 4" with 120 and 130 and a blank row reads as `{region: {"0 - 4": (120, 130)}}`. |

## Left out

- Reading the workbook with pandas (lines 84 and 224) is not modelled. A sheet is given as rows of optional strings, as `dtype=str` delivers them.
- The `try`/`except` that turns a missing file or any exception into `{}` (lines 189-194 and 283-288) is not modelled, because it is I/O error handling.
- Logging is not modelled. This covers every `logger` call and the warning about nation-like rows before the marker (lines 145-150), which changes no state.
- The region-count warning (lines 196-199) is not modelled, because it only logs.
- The remembered federal-district name (lines 104-106) is not modelled, because it is only used in log messages.
- The `__main__` demo block (lines 295-330) is not modelled. Its label list appears as the `Example...` lemmas.
- Rows narrower than column D (nationality) or column J (age/sex) are not modelled. These would raise `IndexError` in the source, which the `except` absorbs; the model requires every row to be wide enough (`WideEnough`).
- CPython's limit on converting between integers and long digit strings is not modelled. Since Python 3.11, `int()` of a string of more than 4300 digits raises `ValueError`, and so does formatting an integer of more than 4300 digits. The first would happen in `parse_age_group` (lines 23, 31-32 and 39) and in the count conversions (lines 128, 168, 267-268), and the scanners' `except` would then return `{}`. The second would happen when line 56 formats the birth years, for example with a huge `base_year`. `Text.Value` and `YearRanges.FormatYearRange` handle numbers of any length, because census figures and years never come near that length.
- Digits are ASCII only. Python's `isdigit` and `\d` also accept other Unicode digits, which census sheets do not contain.
- Lower-casing covers ASCII and the basic Cyrillic letters only. Python's `lower` covers all of Unicode.
- AgeGroups.ExampleUnpaddedRange: this is the demo label " 60 - 64 " without its padding. The padded label is covered for every label by `AgeGroups.PaddingIgnored`.
- The database loader, configuration and cross-file comparison of the repository are not part of this model.
