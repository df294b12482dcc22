# AREA199 hub — a Dafny model of the body-composition core

This project models the computational core of the AREA199 performance-lab hub in Dafny and proves properties of that model. The hub is a Streamlit application for bioimpedance (BIVA) visits and coaching check-ins. The model covers five pieces:

- **The body-composition engine** (`calculate_advanced_metrics`). It turns resistance (Rz) and reactance (Xc), height, weight, age and gender into a record of compartments: TBW, ECW, ICW, FFM, FM, SMM, BCM and BMR. Degraded input gives a seven-key sentinel record instead (module `Calculations`).
- **The bilateral asymmetry decision** behind the body-map figure, and the absolute phase-angle asymmetry passed to the clinical report (module `BodyMap`).
- **The coaching dashboard's sheet helpers** (modules `Coaching` and `CoachingRows`):
  - `clean_json_response` cleans a language-model reply.
  - `clean_num` reads the first number in a cell. The model follows the regular expression `[-+]?\d*\.\d+|\d+` exactly: leftmost match, first alternative tried first.
  - `normalize_key` normalises a column name.
  - `get_val` looks a value up in a row by keyword.
- **The BIVA_LOGS worksheet** (module `Storage`):
  - `clean_float` reads a cell.
  - `save_visit` builds the row it appends, with decimal commas.
  - `get_patient_history` processes the grid it reads. The steps are header normalisation, the name-column search, the row filter for one patient, and the renaming of alias headers to standard names with their cells cleaned.
- **The PDF report's pure decisions** (module `Report`):
  - `sanitize` is the Latin-1 filter.
  - `kpi_grid` and its `add_row` decide, row by row, whether a previous-visit comparison is shown, with what delta, sign and colour. They also decide which header is drawn.

Every number is a `real`. Some operations of the original cannot be defined inside the model, and they are function-valued parameters:

- `math.degrees(math.atan(·))` is `atanDegrees`.
- Python's `float()` on text is `parse`, returning `None` where Python raises `ValueError`.
- `str()` of a float is `show`.

Python dictionaries are Dafny maps, except the coaching row. `get_val` depends on its insertion order and on which duplicate comes last, so the row is a sequence of entries.

Reading the program as a whole shows three things the model proves:

- **The comparison never appears in the report that is actually produced.** The report is produced without a previous visit (`modules/biva_app.py:277`), so its table always shows the dash column (`Report.KpiGridWithoutPrevious`).
- **A degraded measurement cannot fill the report's table.** The sentinel record has no `SMM_kg`, so the table lookup fails (`Report.SentinelReportFails`). This is a fact about `kpi_grid` alone. In the app a sentinel record fails earlier: the data tab reads `d['SMM_kg']` (`modules/biva_app.py:192`) before the report is built.
- **A history row could not feed the comparison even if it were passed.** `get_patient_history` names its columns `PhA`, `FM%`, `TBW`, `Peso` and `Data`. The report looks for `FM_perc`, `TBW_L` and `Date`, so those two rows would still show a dash and the header would show "N/D" (`Report.HistoryRowAsPrevious`).

## Model

| member | source | states |
|---|---|---|
| Numbers.Trunc | modules/calculations.py:63 | `int()` of a float truncates toward zero: for x ≥ 0 the result is the floor, for x < 0 it lies in (x-1, x]. |
| Numbers.NatToStringValue | modules/storage.py:95-96 | The decimal spelling `str(n)` of a natural number reads back as n. |
| Numbers.IntToString | modules/storage.py:95-96 | `str(i)` of an integer is non-empty and starts with '-' exactly when i is negative. |
| Text.Strip | modules/storage.py:15 | `str.strip()` is a slice of its input with only white space before and after it, and it starts and ends with a non-space. |
| Text.TrimStart | modules/storage.py:15 | The leading white space is cut: the result is a suffix of the input, starts with a non-space, and only white space precedes it. |
| Text.TrimEnd | modules/storage.py:15 | The trailing white space is cut: the result is a prefix of the input, ends with a non-space, and only white space follows it. |
| Text.Lower | modules/coaching_app.py:35 | Each character is lower-cased in place, and no ASCII capital remains. |
| Text.LowerIdempotent | modules/coaching_app.py:42 | Lower-casing twice is lower-casing once. |
| Text.StripLeadingSpace | modules/storage.py:15 | A leading space does not change the strip. |
| Text.RemoveAll | modules/coaching_app.py:25 | `s.replace(p, '')` is no longer than s and keeps only characters of s. |
| Text.StripBlank | modules/storage.py:15 | A value strips to the empty string exactly when every character is white space. |
| Text.StripIdempotent | modules/coaching_app.py:25 | Stripping twice is stripping once. |
| Text.RemoveAllAbsent | modules/coaching_app.py:25 | `s.replace(p, '')` changes nothing when p does not occur in s. |
| Text.RemoveAllAfter | modules/coaching_app.py:35 | `replace(p, '')` leaves untouched a prefix that cannot start an occurrence of p. |
| Text.FirstIndex | modules/coaching_app.py:26 | `find(c)` is absent exactly when c does not occur, and otherwise is the index of the first c. |
| Text.FirstIndexAt | modules/coaching_app.py:26 | An occurrence with none before it is the index `find` reports. |
| Text.LastIndex | modules/coaching_app.py:27 | `rfind(c)` is absent exactly when c does not occur, and otherwise is the index of the last c. |
| Text.LastIndexAt | modules/coaching_app.py:27 | An occurrence with none after it is the index `rfind` reports. |
| Calculations.Compute | modules/calculations.py:3-64 | The result is the sentinel exactly when rz ≤ 0, height ≤ 0 or weight ≤ 0, whatever xc, age and gender are. A full record echoes rz and xc, takes PhA from atan(xc/rz) (the 0 fallback is unreachable), and is internally consistent before rounding: the ECW band, ICW = TBW − ECW, FM + FFM = weight, FFM ≤ 98 %, FM ≥ 2 % of weight, and FM% + FFM% = 100. The regressions themselves are stated by `Regressions`, and the BMI by `BmiInMetres`. |
| Calculations.ClampExtracellular | modules/calculations.py:31-33 | When TBW > 0 the result lies in [0.30·TBW, 0.55·TBW]. It is reset to 0.35·TBW below the band and to 0.50·TBW above it, and is unchanged inside the band or when TBW ≤ 0. |
| Calculations.CapFatFree | modules/calculations.py:38 | FFM never exceeds 98 % of the weight and is unchanged when already below. |
| Calculations.FatMass | modules/calculations.py:39-40 | FM equals weight − FFM and is at least 2 % of the weight, so the `fm < 0` floor is never taken. |
| Calculations.PercentagesSum | modules/calculations.py:42-43 | Two masses that add up to the weight have percentages adding up to 100. |
| Calculations.Regressions | modules/calculations.py:18-47 | For a full record, with H2 = height_cm²/Rz: TBW, raw ECW and raw FFM are the published linear regressions on H2, weight (and Rz for FFM), with the male coefficients exactly when the gender is "M". ECW is that raw value after the band clamp, FFM the raw value after the 98 % cap, SMM = 0.401·H2 + 3.825·[gender = "M"] − 0.071·age + 5.102, and TBW%, FFM% and FM% are the masses over the weight times 100. |
| Calculations.BmiInMetres | modules/calculations.py:10-11 | A full record's BMI times the square of the height in metres is the weight. |
| Calculations.BodyMassIndex | modules/calculations.py:10-11 | BMI times the square of the height in metres is the weight. |
| Calculations.H2Rz | modules/calculations.py:18 | The impedance index times Rz is the square of the height in centimetres. |
| Calculations.SentinelShape | modules/calculations.py:7-8 | The sentinel has exactly the seven keys PhA, TBW_L, ECW_L, ICW_L, BCM_kg, FM_perc and FFM_kg, all zero. They are a strict subset of a full record's keys, and SMM_kg is missing. |
| Calculations.IntracellularBand | modules/calculations.py:31-35 | ICW + ECW = TBW, and with TBW > 0 ICW lies between 45 % and 70 % of TBW. |
| Calculations.OnlyExactMIsMale | modules/calculations.py:21-28 | Any gender other than exactly "M" gives the same record as "F". |
| Calculations.MaleMuscleOffset | modules/calculations.py:46-47 | With all other inputs equal, the male SMM exceeds the female SMM by exactly 3.825. |
| Calculations.CellMassAndMetabolicRate | modules/calculations.py:50-54 | BCM = FFM·(0.50 + 0.02·(PhA − 5)) on the record's own FFM and PhA. BMR is `int(500 + 22·FFM)`, truncated toward zero for every FFM, and for FFM ≥ 0 it is the floor. |
| Calculations.AsRow | modules/calculations.py:7-8 | The sentinel dictionary has exactly the seven sentinel keys, all zero. A full record's dictionary has exactly its fifteen keys, with Rz, Xc and BMR_kcal holding the record's own values. |
| Calculations.FullRecordValues | modules/calculations.py:56-64 | A full record stores PhA, FM_perc, FFM_kg, SMM_kg, BCM_kg, TBW_L and ECW_L under those keys. |
| Calculations.PhaseAngle | modules/calculations.py:8 | The phase angle a record reports is its PhA entry; the sentinel's is 0. |
| BodyMap.Classify | modules/biva_app.py:19-24 | At most one side is flagged. Nothing is flagged when dx ≤ 0 or when the relative difference is within ±3 (inclusive). |
| BodyMap.ClassifyAsBand | modules/biva_app.py:20-24 | For dx > 0 the left side is flagged exactly when sx < 0.97·dx, and the right side exactly when sx > 1.03·dx. |
| BodyMap.Asymmetry | modules/biva_app.py:52 | The asymmetry is non-negative, is one of dx − sx and sx − dx, and is zero exactly when the sides are equal. |
| BodyMap.AsymmetrySymmetric | modules/biva_app.py:52 | The asymmetry does not depend on the order of the sides. |
| BodyMap.FlaggedIsAsymmetric | modules/biva_app.py:19-24 | A flagged side implies dx > 0 and an asymmetry above 3 % of dx. |
| BodyMap.DegradedSides | modules/biva_app.py:19-24 | A sentinel right side flags nothing. A sentinel left side beside a positive right PhA flags the left; in the app that case is not reached, because a sentinel left record already fails at `d_sx['Rz']` (`modules/biva_app.py:217`). |
| BodyMap.WorkedExample | modules/biva_app.py:19-24 | Illustration: right 6.0 and left 5.5 flag the left side with an asymmetry of 0.5. |
| Coaching.OuterObject | modules/coaching_app.py:26-30 | Without a '{' or without a '}' the text is returned as is. Otherwise, with i the first '{' and j the last '}', it is the slice from i to j inclusive, or empty when j < i. |
| Coaching.BoundsAreFound | modules/coaching_app.py:26-27 | The first '{' and the last '}' are the indices `find` and `rfind` report. |
| Coaching.OuterObjectSlice | modules/coaching_app.py:26-29 | When the first '{' precedes the last '}', the result is exactly the slice between them, inclusive. |
| Coaching.OuterObjectInverted | modules/coaching_app.py:26-29 | When every '}' precedes every '{', the result is empty. |
| Coaching.UnfencedHasNoFence | modules/coaching_app.py:25 | After both replacements and the strip, no "```" remains. |
| Coaching.NoFenceAfterRemoval | modules/coaching_app.py:25 | Removing "```" left to right never leaves a "```" behind. |
| Coaching.UnfencedUnchanged | modules/coaching_app.py:25 | A stripped text without fences passes the fence removal unchanged. |
| Coaching.BracedIsClean | modules/coaching_app.py:22-31 | A braced text without fences is its own cleaning. |
| Coaching.CleanJsonResponse | modules/coaching_app.py:22-31 | An empty reply gives "{}". Otherwise no "```" remains. A reply without both braces gives the unfenced, stripped text. A reply with both gives the span from the first '{' to the last '}' of that text, or "" when they are inverted. |
| Coaching.CleanJsonIdempotent | modules/coaching_app.py:22-31 | Cleaning a non-empty cleaning result changes nothing. |
| Coaching.DigitRun | modules/coaching_app.py:37 | `\d+` from i: the run is all digits and is followed by a non-digit or the end. |
| Coaching.DigitRunAtLeast | modules/coaching_app.py:37 | n digits from i make a run of at least n. |
| Coaching.DecimalComplete | modules/coaching_app.py:37 | Any decimal spelled at i has its point where the greedy reading puts it, and a fraction no longer than the greedy one. |
| Coaching.DecimalAt | modules/coaching_app.py:37 | The first alternative matches at i exactly when some signed decimal is spelled there. The match is spelled at i, is the longest such decimal, and is not followed by a digit. |
| Coaching.IntegerComplete | modules/coaching_app.py:37 | Any digit string spelled at i fits in the greedy run. |
| Coaching.IntegerAt | modules/coaching_app.py:37 | The second alternative matches at i exactly when a digit is there. The match is spelled at i, is the longest digit string there, and is not followed by a digit. |
| Coaching.DecimalOutrunsDigits | modules/coaching_app.py:37 | A decimal spelled at i is longer than the run of digits at i. |
| Coaching.MatchAt | modules/coaching_app.py:37 | The pattern matches at i exactly when some lexeme is spelled there. A decimal is preferred whenever one is spelled, digits are taken only when none is, and the match is the longest lexeme at i and is not followed by a digit. |
| Coaching.SearchNumber | modules/coaching_app.py:37 | `re.search` returns the leftmost index with a match, and the match there. When it returns nothing, no index matches. |
| Coaching.DecimalNeedsPoint | modules/coaching_app.py:37 | Without a '.' the first alternative never matches. |
| Coaching.MatchNeedsDigit | modules/coaching_app.py:37 | Every match contains a digit. |
| Coaching.IntegerMatch | modules/coaching_app.py:37 | A string of digits matches as one integer. |
| Coaching.DecimalAtStart | modules/coaching_app.py:37 | A sign, digits, a point and a non-empty fraction match the first alternative as a whole. |
| Coaching.SearchSkipsSign | modules/coaching_app.py:37 | In "-" followed by digits, the match starts after the minus sign. |
| Coaching.FirstMatchUnique | modules/coaching_app.py:37 | There is only one leftmost match. |
| Coaching.FirstMatchIsFound | modules/coaching_app.py:37 | The leftmost match is what `re.search` finds. |
| Coaching.CleanNum | modules/coaching_app.py:33-38 | An empty cell gives 0.0. Otherwise the result is the value of the leftmost match in the cleaned text, and 0.0 when no index matches. |
| Coaching.CleanNumNoDigits | modules/coaching_app.py:34-38 | A cell without any digit gives 0.0. |
| Coaching.CleanNumIgnoresCase | modules/coaching_app.py:35 | Lower-casing the cell first does not change the number read. |
| Coaching.CleanNumIgnoresLeadingSpace | modules/coaching_app.py:35 | A space in front of the cell does not change the number read. |
| Coaching.NumberTextUnchanged | modules/coaching_app.py:35 | Text made of digits, signs and points passes the cleaning step unchanged. |
| Coaching.CleanNumNatural | modules/coaching_app.py:35-38 | A natural number written in decimal reads back as itself. |
| Coaching.CleanNumDropsIntegerSign | modules/coaching_app.py:37-38 | "-n" reads as n: the sign is kept only by the decimal alternative. |
| Coaching.CleanNumDecimal | modules/coaching_app.py:37-38 | A signed decimal with a non-empty fraction reads as its exact value, sign included. |
| Coaching.CleanNumKeepsDecimalSign | modules/coaching_app.py:37-38 | Illustration of `CleanNumDecimal`: "-5.5" reads as −5.5. |
| Coaching.CleanNumCommaUnit | modules/coaching_app.py:35-38 | "w,f kg" reads as the decimal w.f: the comma becomes a point and the unit is dropped. |
| CoachingRows.KeepAlnum | modules/coaching_app.py:42 | Only ASCII letters and digits remain, and a text without capitals gives a normalised key. |
| CoachingRows.NormalizeKey | modules/coaching_app.py:41-42 | The result is no longer than the key and consists of lower-case ASCII letters and digits only. |
| CoachingRows.NormalizeKeyIdempotent | modules/coaching_app.py:41-42 | Normalising a normalised key changes nothing. |
| CoachingRows.NormalizeKeyIgnoresCase | modules/coaching_app.py:41-42 | Lower-casing first does not change the normalised key. |
| CoachingRows.NormalizeKeyIgnoresPunctuation | modules/coaching_app.py:42 | Inserting any non-alphanumeric character does not change the normalised key. |
| CoachingRows.NormalizeKeyAppend | modules/coaching_app.py:42 | Normalising distributes over concatenation. |
| CoachingRows.Put | modules/coaching_app.py:45 | Assigning into a dict keeps the keys distinct, keeps an existing key in place, and appends a new one. |
| CoachingRows.PutValues | modules/coaching_app.py:45 | After the assignment the key holds the new value and every other entry keeps its own. |
| CoachingRows.NormalizedRow | modules/coaching_app.py:45 | The normalised row has distinct keys, each a normalised key. |
| CoachingRows.NormalizedRowKeys | modules/coaching_app.py:45 | Its keys are the normalised column names, each once, in order of first appearance. |
| CoachingRows.NormalizedRowValues | modules/coaching_app.py:45 | A normalised key is present exactly when some column normalises to it, and it holds the value of the last such column. |
| CoachingRows.NormalizedRowCovers | modules/coaching_app.py:45 | Every column's normalised name is a key of the normalised row. |
| CoachingRows.NormalizedRowFrom | modules/coaching_app.py:45 | Every key of the normalised row is some column's normalised name. |
| CoachingRows.FirstContaining | modules/coaching_app.py:48-49 | Nothing is found exactly when no key contains the needle. Otherwise the value found is that of the first key containing it. |
| CoachingRows.FirstKeyword | modules/coaching_app.py:46-51 | Nothing is found exactly when no normalised keyword occurs in any key. |
| CoachingRows.FirstKeywordFirstMatch | modules/coaching_app.py:46-51 | A value found comes from the first keyword that matches, and every earlier keyword matches nothing. |
| CoachingRows.Lookup | modules/coaching_app.py:44-51 | Nothing is found exactly when no normalised keyword occurs in any normalised column name. A value found is the last value among the columns whose normalised name a keyword occurs in. |
| CoachingRows.KeywordsMissing | modules/coaching_app.py:46-51 | When the normalised row yields nothing, no normalised keyword occurs in any normalised column name. |
| CoachingRows.NeedleFound | modules/coaching_app.py:45-49 | A value found for a keyword is the last value of a column whose normalised name contains it. |
| CoachingRows.GetNum | modules/coaching_app.py:44-52 | With `is_num`, nothing found gives 0.0, and a value found is read by `clean_num` (a zero number directly as 0.0). |
| CoachingRows.GetText | modules/coaching_app.py:44-52 | Without `is_num`, nothing found gives "", and a value found is `str(v).strip()`: a text that starts and ends with a non-space. |
| CoachingRows.GetValMissing | modules/coaching_app.py:52 | When no keyword matches, the result is 0.0 or "". |
| CoachingRows.LaterDuplicateWins | modules/coaching_app.py:45-49 | Two columns that normalise alike collapse into one, and the later value is returned. |
| CoachingRows.PunctuationKeywordFindsFirstColumn | modules/coaching_app.py:46-49 | A keyword without letters or digits matches the first column of any non-empty row. |
| Cells.ToFloat | modules/pdf_engine.py:108-109 | `float(v)`: a number converts to itself, and text goes through the parser. |
| Storage.FloatText | modules/storage.py:17 | The text handed to `float()` has no ',' and no '%', and is stripped. |
| Storage.CleanFloat | modules/storage.py:13-21 | None, a blank value and an unparseable value all give 0.0. Any other value gives what `float()` reads from the cleaned text. |
| Storage.SheetDecimal | modules/storage.py:94 | The saved text has no '.' and the length of `str(x)`. |
| Storage.FloatTextUndoesSheetDecimal | modules/storage.py:17 | For text without ',' and '%', cleaning a comma-decimal spelling gives the stripped point-decimal spelling. |
| Storage.CleanFloatReadsSheetDecimal | modules/storage.py:94 | Round trip: when `float` reads `str(x)` back as x, `clean_float` reads the saved comma form back as x. |
| Storage.ThousandsSeparatorExample | modules/storage.py:17-21 | "1.234,5" is handed to `float()` as "1.234.5", which has two points. |
| Storage.PercentSignsOnly | modules/storage.py:15-21 | A value of only '%' passes the blank check but hands `float()` the empty string. |
| Storage.VisitRow | modules/storage.py:91-101 | The saved row has 9 fields: date and name first, five decimals without '.', and rz and xc as digit strings when non-negative. |
| Storage.VisitRowResistance | modules/storage.py:95 | The saved resistance is rz truncated to whole ohms, and `clean_float` reads it back as that integer. |
| Storage.VisitRowReactance | modules/storage.py:96 | The saved reactance is xc truncated to whole ohms, and `clean_float` reads it back as that integer. |
| Storage.VisitRowDecimals | modules/storage.py:94-100 | Each comma-decimal field (weight, PhA, TBW, FM%, FFM) cleans back to the stripped `str` of its value, when that spelling has no ',' or '%'. |
| Storage.IntegerSpelling | modules/storage.py:95-96 | `str(int(x))` is a digit or '-' followed by digits. |
| Storage.NameColumn | modules/storage.py:42-48 | The result is absent exactly when no header contains "paziente", "nome" or "soggetto". Otherwise it is the first header that does. |
| Storage.RowsNamed | modules/storage.py:51-52 | The filter keeps at most the rows it is given, and keeps all of them, in order, when every row has the target name. |
| Storage.RowsNamedOne | modules/storage.py:51-52 | A single row is kept exactly when its trimmed, lower-cased name cell equals the trimmed, lower-cased target. |
| Storage.RowsNamedAppend | modules/storage.py:51-52 | The filter of two blocks of rows is the filter of the first followed by the filter of the second: like `df[mask]`, it keeps the input order and repeated rows. With `RowsNamedOne` this fixes the result completely. |
| Storage.RowsNamedMembers | modules/storage.py:51-52 | A row is kept exactly when its trimmed, lower-cased name cell equals the trimmed, lower-cased target. |
| Storage.RowsNamedSound | modules/storage.py:51-52 | Every kept row, position by position, has a matching name cell. |
| Storage.RowsNamedWidth | modules/storage.py:51-52 | Kept rows keep the width of the grid. |
| Storage.RowsNamedEmpty | modules/storage.py:52-54 | The filter is empty exactly when no row has the target name. |
| Storage.FirstIn | modules/storage.py:67-68 | The first column equal to one of the aliases, or none when no column is. |
| Storage.RenameFirstSpec | modules/storage.py:66-73 | Only the first column equal to an alias is renamed, and every other column is unchanged. |
| Storage.OnlyFirstAliasRenamed | modules/storage.py:66-73 | Illustration of `RenameFirstSpec`: with headers "peso" and "weight", only "peso" becomes "Peso". |
| Storage.RenameAll | modules/storage.py:66-73 | Renaming keeps the number of columns. |
| Storage.RenameAllLabels | modules/storage.py:66-73 | Every column after the renaming is its old label or one of the standard names. |
| Storage.StandardColumns | modules/storage.py:56-73 | The standard columns are as many as the headers. |
| Storage.PatientHistory | modules/storage.py:34-75 | Fewer than two rows, or no name column, give an empty result. A result has the standard columns and at least one row of the grid's width. |
| Storage.SheetHistory | modules/storage.py:37-75 | Without a name column the result is empty. A result has the standard columns and rows of their width. |
| Storage.PatientFrame | modules/storage.py:51-73 | The frame is empty exactly when no row has the target name. Otherwise it has the given columns, and its k-th row is the k-th kept row converted cell by cell, with no other rows. |
| Storage.HeaderIsNotStandard | modules/storage.py:37 | A lower-cased header never equals a standard name. |
| Storage.AliasIsNotNameHeader | modules/storage.py:44 | No alias contains "paziente", "nome" or "soggetto", so renaming never touches the name column. |
| Storage.RenameKeepsNameColumn | modules/storage.py:66-73 | The name column keeps its label through all the renaming. |
| Storage.NameColumnStaysText | modules/storage.py:66-72 | The name column is not renamed and its cells stay text. |
| Storage.PatientFrameFound | modules/storage.py:52-54 | A frame is produced exactly when some row has the target name. |
| Storage.PatientFrameNameCells | modules/storage.py:52 | Every row of the frame has the target name in the name column. |
| Storage.PatientFrameComplete | modules/storage.py:51-52 | Every row with the target name is in the frame. |
| Storage.HistoryIsFrame | modules/storage.py:37-75 | With a name column, the history is the patient frame of the rows below the header, over the standard columns. |
| Storage.HistoryFound | modules/storage.py:48-54 | With a name column, a history is returned exactly when some row below the header has the patient's name. |
| Storage.HistoryNameCells | modules/storage.py:51-52 | Every row of the history carries the patient's name. |
| Storage.RenameAllDistinct | modules/storage.py:66-73 | Renaming keeps distinct columns distinct when the standard names are new and pairwise different. |
| Storage.StandardColumnsDistinct | modules/storage.py:56-73 | Distinct lower-cased headers stay distinct after the renaming. |
| Storage.HistoryColumnsDistinct | modules/storage.py:37-75 | The history's columns are distinct. |
| Storage.StandardColumnsLabels | modules/storage.py:57-69 | Every column is its header or one of the five standard names. |
| Storage.StandardNamesDistinct | modules/storage.py:57-63 | The five standard names are pairwise different. |
| Report.Sanitize | modules/pdf_engine.py:14 | The result holds only Latin-1 characters other than '?'. |
| Report.SanitizeIsFilter | modules/pdf_engine.py:14 | `sanitize` keeps exactly the Latin-1 characters other than '?', in their order. |
| Report.SanitizeAppend | modules/pdf_engine.py:14 | Sanitising distributes over concatenation. |
| Report.SanitizeUnchanged | modules/pdf_engine.py:14 | A text is unchanged exactly when all its characters are Latin-1 and none is '?'. |
| Report.SanitizeIdempotent | modules/pdf_engine.py:14 | Sanitising twice is sanitising once. |
| Report.SanitizeValue | modules/pdf_engine.py:12-14 | A string is filtered; a number is exactly its `str` spelling, unfiltered. |
| Report.Compare | modules/pdf_engine.py:100-124 | A comparison is shown exactly when the previous record is non-empty, the row has a key, the key is in it, and both values parse; otherwise "-". The shown previous value is the parsed one, and current = previous + delta. '+' appears and the colour is green exactly when delta > 0. |
| Report.CompareSwapped | modules/pdf_engine.py:106-118 | Swapping the two visits negates the delta. Green one way is red the other, and a zero delta is red both ways. |
| Report.TableHeader | modules/pdf_engine.py:93-97 | The header has the previous-visit column exactly when the previous record is non-empty, and shows its Date or "N/D". |
| Report.TableRow | modules/pdf_engine.py:100-124 | A row shows its label, unit and the current value of its key, and a row without a previous key shows "-". |
| Report.KpiGrid | modules/pdf_engine.py:82-133 | The grid fails exactly when one of the seven keys is missing. Otherwise it has the header and seven rows with their labels, units and current values. |
| Report.KpiGridDefined | modules/pdf_engine.py:127-133 | The grid is drawn exactly when the data has PhA, FM_perc, FFM_kg, SMM_kg, BCM_kg, TBW_L and ECW_L. |
| Report.KpiGridCurrent | modules/pdf_engine.py:127-133 | Each row shows the current value of its own key. |
| Report.KpiGridComparisons | modules/pdf_engine.py:127-133 | Only the PhA, FM_perc and TBW_L rows can compare. FFM, SMM, BCM and ECW always show "-". |
| Report.KpiGridComparedRows | modules/pdf_engine.py:127-132 | The PhA, FM_perc and TBW_L rows compare the same key in both records. |
| Report.KpiGridWithoutPrevious | modules/pdf_engine.py:138-141 | Without a previous record, the header has no previous column and every row shows "-". |
| Report.KpiGridAgainstItself | modules/pdf_engine.py:106-119 | Against itself, every shown delta is 0, unsigned and red. |
| Report.ReportData | modules/biva_app.py:275-276 | The report data is the engine's record plus "Report_Text". |
| Report.SentinelReportFails | modules/biva_app.py:275-277 | The report data of a degraded measurement has no SMM_kg, so the grid fails. |
| Report.FullRecordFillsTable | modules/pdf_engine.py:127-133 | A full record fills the grid, and each row shows the record's own field. |
| Report.HistoryRowAsPrevious | modules/storage.py:57-69 | A history row as previous record leaves the FM_perc and TBW_L rows at "-". A non-empty one puts "N/D" in the header. |
| Report.HistoryKeysAbsent | modules/storage.py:57-69 | A history row has no FM_perc, TBW_L or Date key. |

## Left out

- Streamlit pages, session state, Google Sheets and HTTP access, and the OpenAI calls are not modelled. They are user interface or network I/O.
- matplotlib drawing and FPDF output are not modelled. This includes fonts, colours as RGB triples, images, header and footer, and the glossary. Only the decisions `kpi_grid` makes are modelled.
- IEEE floating point is not modelled; arithmetic is exact over `real`.
- Calculations.Compute: the record is stated before `round(·, 1)` and `round(·, 2)`, because rounding breaks the exact equalities.
- Calculations.Compute: `math.degrees(math.atan(·))` is the parameter `atanDegrees`, since the model cannot define it.
- Calculations.AsRow: the sentinel's values are Python `int` 0, modelled as the number 0.0. The contract states the key sets and three full-record values; FullRecordValues states the other values the report reads.
- Cells.ToFloat: Python's `float()` on text is the parameter `parse`. It returns `None` where Python raises `ValueError`.
- CoachingRows.GetText: `str()` of a float is the parameter `show`.
- Report.Compare: the `{delta:.1f}` formatting of the delta is not modelled. The delta is kept exact.
- Text.Lower: lower-casing covers ASCII letters only. Unicode case folding, which can change the length, is not modelled.
- Coaching.SearchNumber: `\d` covers the ASCII digits only.
- BodyMap.DegradedSides: the left-sentinel case is not reachable in the app. A sentinel left record fails at `d_sx['Rz']` (`modules/biva_app.py:217`) before `draw_body_map` is called (`modules/biva_app.py:238`).
- Report.SentinelReportFails: the app never reaches this failure. A sentinel record fails at `d['SMM_kg']` on the data tab (`modules/biva_app.py:192`), before the report code (`modules/biva_app.py:270-281`) runs.
- Storage.RowsNamed: its own contract bounds the length and states the all-match case. RowsNamedOne and RowsNamedAppend pin down the result, order and repeated rows included. RowsNamedMembers, RowsNamedSound and RowsNamedEmpty state which rows are kept.
- Storage.RenameAll: its own contract states only that the length is kept. RenameAllDistinct and RenameAllLabels state what the renaming does to the labels.
- Storage.StandardColumns: its own contract states only that the length is kept. StandardColumnsLabels and StandardColumnsDistinct state what the labels become.
- Text.RemoveAll: its own contract bounds only the length and the characters. RemoveAllAbsent and RemoveAllAfter state where the text passes through unchanged.
- Storage.VisitRowDecimals: `str()` of a float is the parameter `show`, so the absence of ',' and '%' in its spelling is a hypothesis.
- The layout of the table (cell widths in millimetres) is FPDF geometry and is not modelled.
- Storage.CleanFloat: values other than text and None are not modelled, including numbers a sheet might return. `get_all_values` returns text.
- Storage.PatientHistory: requires a rectangular grid and distinct normalised headers. pandas' behaviour for duplicate column labels and for ragged rows is not modelled.
- Storage.VisitRow: the date comes from the clock and is a parameter.
- Coaching.CleanNum: values other than text are not modelled. Python's `str()` of a float, including "-0.0", "nan" and "inf", is not modelled.
- The `try`/`except` wrappers around I/O are not modelled. The model's functions are total, and the error paths that remain are the `None` results of `parse`.
