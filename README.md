# Tally-sheet table pipeline of DoctorsWithoutBordersOCR, in Dafny

The app reads MSF tally sheets with OCR and uploads the numbers to DHIS2. This project
models the part that works on what the OCR returns:

- the recognised tables are cleaned up (`clean_up`);
- their body cells are evaluated as integer arithmetic (`evaluate_cells`);
- row and column labels are reconciled with the DHIS2 vocabularies by edit-distance
  similarity (`correct_field_names`);
- row 0 is promoted to the column labels (`set_first_row_as_header`);
- every cell worth uploading becomes a data-value record (`generate_key_value_pairs`).

Around the pipeline sit:

- the helpers it calls: the letter-by-letter similarity and the date normaliser
  `get_yyyy_mm_dd`;
- the sheet-type detection and the confidence bookkeeping over the word-level OCR result;
- the week and period arithmetic;
- the page-review bookkeeping of the app;
- the GPT-4o path: parsing the answer's tables and rescaling the image sent.

One Dafny module per concern:

- **Tables:** cells, grids and an in-place `Frame`.
- **Text:** digits, `str(n)`, strip, `re.split(r'[ \n]+')`.
- **Levenshtein, Similarity, BestMatch.**
- **Calendar, Dates:** `strptime` and `strftime` for the seven formats.
- **ArithEval:** the part of `simple_eval` the cells need.
- **CleanUp, EvaluateCells, FieldNames, Header, KeyValue.**
- **Ocr, Confidence, SheetType.**
- **Weeks:** `week1_start_ordinal`, `week_from_date`, `get_period`, `str.format`.
- **PageReview.**
- **LlmOcr.**

How the source's forms are carried over:

- Code that changes tables in place becomes methods on `Frame` objects, or on arrays for the
  confidence grids. Each such method is proved against a function that states the resulting
  grid.
- Pure code becomes functions with lemmas.
- The OCR result, the DHIS2 vocabularies and the form are inputs.

## Model

| member | source | states |
|---|---|---|
| Levenshtein.Min3 | src/msfocr/data/post_processing.py:15 | the least of three costs is one of them and at most each |
| Levenshtein.DistanceToSelf | src/msfocr/data/post_processing.py:15 | a string is at distance 0 from itself |
| Levenshtein.DistanceZeroMeansEqual | src/msfocr/data/post_processing.py:15 | distance 0 only between equal strings |
| Levenshtein.DistanceAtMostLonger | src/msfocr/data/post_processing.py:15-18 | the distance never exceeds the longer length, so the similarity is at least 0 |
| Levenshtein.DistanceSymmetric | src/msfocr/data/post_processing.py:15 | the distance does not depend on the order of the strings |
| Levenshtein.DistanceAtLeastLengthGap | src/msfocr/data/post_processing.py:15 | the distance is at least the difference in length |
| Levenshtein.DistanceOfPrefixes | src/msfocr/data/post_processing.py:15 | the recurrence on prefixes the dynamic programme uses |
| Levenshtein.NextRow | src/msfocr/data/post_processing.py:15 | one row of the table holds the distances of one more prefix to every prefix of the other string |
| Levenshtein.ComputeDistance | src/msfocr/data/post_processing.py:15 | the dynamic programme computes exactly the recursive edit distance |
| Similarity.LetterByLetterSimilarity | src/msfocr/data/post_processing.py:7-23 | fails exactly on two empty strings (division by zero); otherwise lies in [0, 1] and is 1 exactly for equal strings |
| Similarity.DistanceZeroIffEqual | src/msfocr/data/post_processing.py:15 | distance 0 in both directions of the equivalence |
| Similarity.RatioFacts | src/msfocr/data/post_processing.py:21 | distance over maximum length lies in [0, 1] and is 0 only for distance 0 |
| Similarity.SimilaritySymmetric | src/docTR/ocr_functions.py:13-23 | the similarity is symmetric |
| Similarity.SimilarityEqualLength | src/msfocr/docTR/ocr_functions.py:13-29 | for equal lengths n the similarity is 1 - distance / n |
| Similarity.SimilarityWithEmpty | src/msfocr/doctr/ocr_functions.py:14-30 | a non-empty string scores 0 against "" in either order |
| BestMatch.FirstStrictMax | app_doctr.py:201-209 | the running strict maximum from 0 ends on -1 exactly when no score is positive, else on a positive maximal score beating every earlier one |
| BestMatch.FirstStrictMaxUnique | app_doctr.py:201-209 | that characterisation determines the position |
| BestMatch.FirstStrictMaxAppend | app_doctr.py:205-209 | one more score moves the position only when it beats the current best |
| Calendar.DaysInMonth | app_doctr.py:121-122 | months have 28 to 31 days |
| Calendar.DaysBeforeMonth | app_doctr.py:122 | days before a month within a year: 0 to 335 |
| Calendar.Weekday | app_doctr.py:123 | `date.weekday()` lies in 0..6 |
| Calendar.NextNewYear | app_doctr.py:122 | consecutive New Year ordinals are one year length apart |
| Calendar.OrdinalWithinYear | app_doctr.py:138-139 | a date's ordinal lies between its New Year and the next |
| Dates.MonthNameAlternatives | src/msfocr/data/post_processing.py:36 | every `%B` alternative stays inside the text |
| Dates.SpaceRun | src/msfocr/data/post_processing.py:36 | a whitespace run stays inside the text |
| Dates.Alternatives | src/msfocr/data/post_processing.py:36 | every directive alternative stays inside the text |
| Dates.Match | src/msfocr/data/post_processing.py:36 | a match ends between its start and the end of the text |
| Dates.TryAlternatives | src/msfocr/data/post_processing.py:36 | a backtracking match ends between its start and the end of the text |
| Dates.Render | src/msfocr/data/post_processing.py:37 | `%Y-%m-%d` has ten characters exactly for four-digit years |
| Dates.GetYyyyMmDd | src/msfocr/data/post_processing.py:26-41 | the loop with early return computes the first-success normalisation |
| Dates.FirstParseIsFirstSuccess | src/msfocr/data/post_processing.py:32-41 | `None` exactly when no format parses; else the rendering of the first format in list order that parses |
| Dates.FirstParseRendersValidDate | src/msfocr/doctr/ocr_functions.py:33-48 | every result renders a valid date |
| Dates.CompileOutputFormat | src/msfocr/data/post_processing.py:32-37 | the output format is the first format tried, and compiles to year, month, day |
| Dates.MonthAlternativesOfPadded | src/msfocr/data/post_processing.py:36 | a two-digit month is taken whole first |
| Dates.DayAlternativesOfPadded | src/msfocr/data/post_processing.py:36 | a two-digit day is taken whole first |
| Dates.RenderParses | src/msfocr/data/post_processing.py:36-37 | the rendering of a valid four-digit-year date parses back to that date |
| Dates.NormalizeDateIdempotent | src/msfocr/docTR/ocr_functions.py:38-47 | a ten-character result normalises to itself |
| ArithEval.Unary | src/msfocr/data/post_processing.py:58 | unary +/- succeeds exactly on numeric operands |
| ArithEval.Binary | src/msfocr/data/post_processing.py:58 | binary +/- succeeds exactly on two numeric operands |
| ArithEval.Display | src/msfocr/data/post_processing.py:58 | `str` of a value is never empty |
| ArithEval.NextLexeme | src/msfocr/data/post_processing.py:58 | each lexeme consumes at least one character and stays in the text |
| ArithEval.ParseExpr | src/msfocr/data/post_processing.py:58 | a parsed expression consumes tokens and stays in range |
| ArithEval.ParseTokens | src/msfocr/data/post_processing.py:58 | the parser inverts the token printer |
| ArithEval.TokenizeUntokenize | src/msfocr/data/post_processing.py:58 | the tokenizer inverts writing tokens out |
| ArithEval.EvalUntokenize | src/msfocr/data/post_processing.py:58 | the evaluator agrees with the reference semantics on every printed expression |
| ArithEval.EvalIntToString | src/msfocr/data/post_processing.py:58 | `simple_eval(str(i)) == i` |
| ArithEval.EvalDisplay | src/msfocr/data/post_processing.py:58 | `simple_eval(str(v)) == v` for every value |
| ArithEval.EvalSumText | tests/test_data_post_processing.py:15 | "x+y" evaluates to the sum, as "12+8" does |
| ArithEval.EvalDifferenceText | tests/test_data_post_processing.py:15 | "x - y" evaluates to the difference, as "16 - 4" does |
| ArithEval.EvalConstantName | src/msfocr/data/post_processing.py:58 | True, False and None evaluate to their constants |
| ArithEval.EvalNan | src/msfocr/data/post_processing.py:58 | "nan" is an unknown name, so evaluating it raises |
| CleanUp.CleanGridCells | src/msfocr/data/post_processing.py:73-79 | shape kept; `None` and "None" become ""; every other cell unchanged |
| CleanUp.CleanGridHasNoPlaceholder | src/msfocr/data/post_processing.py:77-78 | afterwards no cell is `None` or "None" |
| CleanUp.CleanGridIdempotent | src/msfocr/data/post_processing.py:64-79 | cleaning twice is cleaning once |
| CleanUp.CleanTable | src/msfocr/data/post_processing.py:74-78 | the nested loops leave the clean grid and keep the labels |
| CleanUp.CleanTables | src/msfocr/data/post_processing.py:73 | every table of the list is cleaned |
| EvaluateCells.EvaluatedGridKeepsLabels | src/msfocr/data/post_processing.py:54-61 | shape kept; row 0 and column 0 never change |
| EvaluateCells.FailingColumnUnchanged | src/msfocr/data/post_processing.py:55-60 | one failing body cell leaves the whole column unchanged |
| EvaluateCells.ConvertingColumnRewritten | src/msfocr/data/post_processing.py:58 | in a converting column "" and "-" stay (and keep the column object); in a float64 column `None` becomes "nan" and an integer `i` becomes "i.0"; in any other column `None` becomes "None" and a value `str` of itself |
| EvaluateCells.DisplayIsEvaluated | src/msfocr/data/post_processing.py:58 | a written-back value is never "" or "-" |
| EvaluateCells.EvalReparses | src/msfocr/data/post_processing.py:58 | `simple_eval` reads back what `str` writes |
| EvaluateCells.OutcomeFixed | src/msfocr/data/post_processing.py:58 | a result written as in an object or int64 column evaluates back to the same result |
| EvaluateCells.EvaluatedGridIdempotent | src/msfocr/data/post_processing.py:44-62 | evaluating twice is evaluating once |
| EvaluateCells.ConvertColumn | src/msfocr/data/post_processing.py:58 | `apply` down a column succeeds exactly when every body cell converts; each text is its result written in the dtype inferred for the whole column |
| EvaluateCells.WriteColumn | src/msfocr/data/post_processing.py:58-61 | the body of one column is replaced and nothing else |
| EvaluateCells.EvaluateTable | src/msfocr/data/post_processing.py:54-61 | the column loop leaves the evaluated grid |
| EvaluateCells.EvaluateTables | src/msfocr/data/post_processing.py:53 | every table of the list is evaluated |
| EvaluateCells.EvaluateCells | src/msfocr/data/post_processing.py:44-62 | `evaluate_cells` with `simple_eval` leaves every table as `EvaluatedGrid`, with the column dtype rule above |
| EvaluateCells.NumberText | tests/test_data_post_processing.py:14-21 | a number's text is neither "" nor "-" and evaluates to the number |
| EvaluateCells.NumberCell | tests/test_data_post_processing.py:14-21 | a number cell such as "15" gives its number |
| EvaluateCells.SumCell | tests/test_data_post_processing.py:15-22 | a sum cell such as "12+8" gives the sum |
| EvaluateCells.DifferenceCell | tests/test_data_post_processing.py:15-22 | a difference cell such as "16 - 4" gives the difference |
| EvaluateCells.UnitTestTableWith | tests/test_data_post_processing.py:11-25 | for any evaluator giving integers on the three cells, the unit-test table evaluates to their decimal texts; "" and "-" are kept and no column is float64 |
| EvaluateCells.UnitTestTable | tests/test_data_post_processing.py:11-25 | the unit-test table, for any numbers, evaluates to the expected table |
| EvaluateCells.ObjectAndIntegerColumns | src/msfocr/data/post_processing.py:58 | a column with "" or "-" stays object, a column of integers only is int64: neither is float64 |
| EvaluateCells.NoneAndIntegerColumn | src/msfocr/data/post_processing.py:58 | `None` beside an integer makes the column float64 |
| EvaluateCells.FloatColumnWith | src/msfocr/data/post_processing.py:58 | a column of `None` above a cell giving an integer is written "nan" and "i.0" |
| EvaluateCells.FloatColumnExample | src/msfocr/data/post_processing.py:58 | with `simple_eval`, [`None`, "12+8"] (any numbers) becomes ["nan", "20.0"] |
| EvaluateCells.InferFloatSpec | src/msfocr/data/post_processing.py:58 | the inferred dtype is float64 exactly when every result is an integer or `None` and there is at least one of each |
| EvaluateCells.FloatColumnIff | src/msfocr/data/post_processing.py:58 | a converting column is float64 exactly when every body cell gives an integer or `None` and at least one gives each |
| EvaluateCells.TextKeepsObjectColumn | src/msfocr/data/post_processing.py:58 | a "" or "-" body cell keeps the column object |
| EvaluateCells.NoNoneKeepsColumn | src/msfocr/data/post_processing.py:58 | without a `None` result the column is not float64 |
| EvaluateCells.ColumnIdempotent | src/msfocr/data/post_processing.py:55-60 | evaluating a column a second time leaves it as the first pass left it |
| EvaluateCells.FailingColumnFailsAgain | src/msfocr/data/post_processing.py:55-60 | a column that raised raises again |
| EvaluateCells.FloatColumnFailsAgain | src/msfocr/data/post_processing.py:58-60 | a float64 column holds "nan", which raises, so a second pass keeps it |
| EvaluateCells.ObjectColumnReadsBack | src/msfocr/data/post_processing.py:58 | an object or int64 column reads back to the same results and the same text |
| EvaluateCells.ColumnAdvance | src/msfocr/data/post_processing.py:55-60 | one column step of the loop extends the evaluated columns by one |
| EvaluateCells.KeptColumn | src/msfocr/data/post_processing.py:59-60 | a column that raised keeps every cell |
| EvaluateCells.KeptHeader | src/msfocr/data/post_processing.py:54 | the header cell of every column is kept |
| EvaluateCells.WrittenColumn | src/msfocr/data/post_processing.py:58 | a converting column holds the text of each result in the column's dtype |
| FieldNames.Scores | app_doctr.py:205-206 | one similarity per vocabulary entry, in order |
| FieldNames.ScanIsFirstStrictMax | app_doctr.py:201-209 | the scan raises exactly for "" against a vocabulary holding ""; otherwise it ends on the first strict maximum |
| FieldNames.Reconcile | app_doctr.py:201-210 | the new label is "" or a vocabulary entry; it fails exactly for "" against a vocabulary holding "" |
| FieldNames.ReconcileToEmpty | app_doctr.py:202-210 | the label becomes "" exactly when no entry scores above 0 |
| FieldNames.ReconcileIsFirstBest | app_doctr.py:205-209 | otherwise it becomes the first entry with the highest similarity |
| FieldNames.ReconcileChoosesFirstBest | app_doctr.py:205-209 | every non-empty result is such an entry |
| FieldNames.ReconcileKeepsName | app_doctr.py:205-209 | a label that is an entry is kept |
| FieldNames.ReconcileWithoutNames | app_doctr.py:202-210 | with an empty vocabulary every label becomes "" |
| FieldNames.RowPassShape | app_doctr.py:199-210 | the row pass changes only column 0, each cell as the label match says |
| FieldNames.ColumnPassShape | app_doctr.py:212-223 | the column pass changes only row 0, each cell as the label match says |
| FieldNames.CorrectedLabels | app_doctr.py:199-223 | after both passes only labels changed; row labels are data-element matches, headers including (0,0) category-option matches |
| FieldNames.MatchLabel | app_doctr.py:201-209 | the running-maximum loop computes the reconciled name |
| FieldNames.RowPassTable | app_doctr.py:200-210 | the row loop on a frame leaves the row-pass grid |
| FieldNames.ColumnPassTable | app_doctr.py:213-223 | the column loop on a frame leaves the column-pass grid |
| FieldNames.RowPasses | app_doctr.py:199-210 | the row pass over every table |
| FieldNames.ColumnPasses | app_doctr.py:212-223 | the column pass over every table |
| FieldNames.CorrectFieldNames | app_doctr.py:190-224 | shapes kept, only labels changed; on success every table holds its corrected grid |
| Header.Promote | app_doctr.py:233-235 | fails exactly on an empty table; the labels on top of the body give back the table |
| Header.PromoteShape | app_doctr.py:234-235 | one row fewer, row i is old row i+1, width matches the labels |
| Header.PromoteInjective | app_doctr.py:233-235 | promotion loses nothing |
| Header.SetFirstRowAsHeader | app_doctr.py:227-236 | the argument's labels are overwritten by row 0, and a fresh frame holds the promoted table |
| KeyValue.LookupSpec | src/msfocr/doctr/ocr_functions.py:181-185 | no ids exactly when no field has the label; else the ids of the last field with it |
| KeyValue.FindField | src/msfocr/doctr/ocr_functions.py:181-185 | the group and field loops compute that lookup |
| KeyValue.LookupAppend | src/msfocr/doctr/ocr_functions.py:183-185 | a later matching field overrides earlier ones |
| KeyValue.EntriesRowMajor | src/msfocr/doctr/ocr_functions.py:169-175 | the body cells are visited in row-major order, skipping column 0 |
| KeyValue.KeptEntries | src/msfocr/doctr/ocr_functions.py:176 | kept cells are neither `None`, "-", "" nor "None", never more than the body |
| KeyValue.AssembleRecords | src/msfocr/doctr/ocr_functions.py:176-197 | success exactly when every kept key resolves; then one record per kept cell, in order, with that cell's value and ids |
| KeyValue.AssembleFirstFailure | src/msfocr/doctr/ocr_functions.py:190-191 | the exception names the first unresolved key in row-major order |
| KeyValue.AssembleFailureExtends | src/msfocr/doctr/ocr_functions.py:190-191 | once raised, no record is returned |
| KeyValue.AllSkippedNoRecords | src/msfocr/doctr/ocr_functions.py:176-199 | a body of skipped cells yields [] whatever the form |
| KeyValue.GenerateKeyValuePairs | src/msfocr/doctr/ocr_functions.py:154-199 | the nested loops compute the assembled records |
| KeyValue.AssembleRow | src/msfocr/doctr/ocr_functions.py:172-197 | one row's loop extends the assembled records |
| KeyValue.PresentValues | src/docTR/ocr_functions.py:126-129 | never more values than cells |
| KeyValue.PresentValuesKeepsPlaceholders | src/docTR/ocr_functions.py:126 | "-", "" and "None" are kept; only `None` is skipped |
| KeyValue.PresentValuesOfNone | tests/test_ocr_functions.py:32-39 | a body of `None` yields no value |
| KeyValue.GenerateValuePairs | src/docTR/ocr_functions.py:114-131 | the loops compute the value-only records |
| KeyValue.ValuePairsRowByRow | src/docTR/ocr_functions.py:119-129 | row after row, the present cells after the label |
| KeyValue.ValuePairsTestEmpty | tests/test_ocr_functions.py:32-39 | the single all-`None` row yields [] |
| KeyValue.ValuePairsTestThreeRows | tests/test_ocr_functions.py:41-56 | the three-row table yields its three values in order |
| Ocr.LineWordsMembership | src/msfocr/doctr/ocr_functions.py:69-73 | a word is in the flattened document exactly when a line holds it |
| Ocr.LineTexts | src/msfocr/doctr/ocr_functions.py:138 | one text per line |
| Ocr.LineTextsAt | src/msfocr/doctr/ocr_functions.py:138 | the text of line i is its words joined by blanks |
| Confidence.RecordedKeys | src/msfocr/doctr/ocr_functions.py:68-74 | the keys are exactly the word values |
| Confidence.RecordedLastWins | src/msfocr/docTR/ocr_functions.py:67-73 | a value maps to the confidence of its last occurrence |
| Confidence.RecordedAppend | src/docTR/ocr_functions.py:28-32 | recording two runs of words is recording one after the other |
| Confidence.GetConfidenceValues | src/msfocr/doctr/ocr_functions.py:62-74 | the four loops build the recorded dictionary |
| Confidence.RecordBlocks | src/msfocr/doctr/ocr_functions.py:70-73 | the block loop records the block's words |
| Confidence.RecordLines | src/msfocr/doctr/ocr_functions.py:71-73 | the line and word loops record the lines' words |
| Confidence.HitsEmpty | src/msfocr/doctr/ocr_functions.py:108-112 | no value found exactly when no word is a key |
| Confidence.MeanWithinDictionary | src/msfocr/doctr/ocr_functions.py:112-113 | a cell's mean lies between the least and greatest dictionary value |
| Confidence.ConfidenceInUnit | src/msfocr/doctr/ocr_functions.py:104-113 | values in [0, 1]; `None` cells and cells without dictionary words get 0 |
| Confidence.CellTotals | src/msfocr/doctr/ocr_functions.py:104-111 | the word loop sums the found values and counts them |
| Confidence.HitTotals | src/msfocr/doctr/ocr_functions.py:108-111 | over any list of words: the total is the sum of the known words' values and the count is how many are known |
| Confidence.FillTable | src/msfocr/doctr/ocr_functions.py:102-113 | every cell of the array gets its cell's confidence |
| Confidence.FillRow | src/docTR/ocr_functions.py:66-75 | one row gets its confidences and the other rows are unchanged |
| Confidence.TabularConfidence | src/msfocr/docTR/ocr_functions.py:97-112 | one fresh array per table, of its shape, holding every cell's confidence |
| SheetType.ListsHaveNoEmptyName | src/msfocr/doctr/ocr_functions.py:127-128 | the fixed lists hold no empty name, so the similarity never raises |
| SheetType.Score | src/msfocr/doctr/ocr_functions.py:140 | a score lies in [0, 1] |
| SheetType.PairsAligned | src/msfocr/doctr/ocr_functions.py:137-143 | every scanned pair names a listed name |
| SheetType.FoundDates | src/msfocr/doctr/ocr_functions.py:149-151 | never more dates than lines |
| SheetType.ChoiceIsFirstBest | src/msfocr/doctr/ocr_functions.py:130-148 | a listed name or ""; "" exactly when no pair scores above 0; else the first pair with the highest score |
| SheetType.DatesFromLines | src/msfocr/docTR/ocr_functions.py:148-151 | each date is some line's normalisation, and each parsing line contributes one |
| SheetType.SortedStrings | src/msfocr/doctr/ocr_functions.py:152 | `sorted` is a permutation |
| SheetType.SortedStringsSorted | src/msfocr/doctr/ocr_functions.py:152 | `sorted` is ascending |
| SheetType.SortedUnique | src/msfocr/doctr/ocr_functions.py:152 | two ascending permutations are equal |
| SheetType.RunIsFirstStrictMax | src/docTR/ocr_functions.py:98-107 | the running maximum ends on the first strict maximum |
| SheetType.SheetOfSpec | src/msfocr/doctr/ocr_functions.py:118-152 | data set and org unit are the choices over all lines; the period is the sorted found dates |
| SheetType.ScanNames | src/msfocr/doctr/ocr_functions.py:139-148 | the name loop extends the running best |
| SheetType.ScanLine | src/msfocr/doctr/ocr_functions.py:138-151 | one line updates the state as its specification says |
| SheetType.ScanLines | src/msfocr/doctr/ocr_functions.py:137 | the line loop |
| SheetType.ScanBlocks | src/msfocr/doctr/ocr_functions.py:136 | the block loop |
| SheetType.GetSheetType | src/msfocr/doctr/ocr_functions.py:118-152 | the loops compute the specified sheet |
| Text.NatToString | app_doctr.py:408 | `str(n)`: digits, no leading zero |
| Text.NatToStringRoundTrip | app_doctr.py:408 | `str(n)` reads back as n |
| Text.PadTwo | src/msfocr/data/post_processing.py:37 | two digits worth n |
| Text.PadFour | src/msfocr/data/post_processing.py:37 | four digits worth n |
| Text.StripLeft | src/msfocr/data/post_processing.py:58 | removes exactly the leading whitespace |
| Text.StripRight | src/msfocr/data/post_processing.py:58 | removes exactly the trailing whitespace |
| Text.SplitWords | src/msfocr/doctr/ocr_functions.py:107 | at least one piece |
| Text.SplitJoin | src/msfocr/doctr/ocr_functions.py:107 | splitting words joined by single blanks gives the words back |
| Text.SplitWordsPieces | src/msfocr/doctr/ocr_functions.py:107 | no piece holds a blank or newline |
| Weeks.SundayOnOrBefore | app_doctr.py:124 | ordinal minus (weekday+1) mod 7 is the Sunday within the 7 days up to it |
| Weeks.Week1StartOrdinal | app_doctr.py:111-125 | at most Jan 1's ordinal, more than it minus 7, divisible by 7, a Sunday |
| Weeks.Week1Gap | app_doctr.py:111-125 | consecutive week-1 starts are 52 or 53 weeks apart |
| Weeks.WeekFromDateSpec | app_doctr.py:128-145 | weeks 1..53 holding the date; fails only at year 9999's end; (year+1, 1) exactly when on or after next year's week 1 |
| Weeks.CloseAt | app_doctr.py:158 | the first `}` at or after a position |
| Weeks.FormatLiteral | app_doctr.py:158 | `str.format` copies brace-free text |
| Weeks.FormatField | app_doctr.py:158-163 | a `{name}` field becomes its argument; a missing one is a KeyError |
| Weeks.ArgumentsAgree | app_doctr.py:158-163 | exactly year, month, day and week are passed |
| Weeks.FormatRender | app_doctr.py:158-163 | formatting a written template fills it field by field |
| Weeks.PeriodTypeNamed | app_doctr.py:16-35 | the lookup returns the entry with that key |
| Weeks.PeriodTypeNamedName | app_doctr.py:16-35 | every key finds its own entry |
| Weeks.Template | app_doctr.py:16-35 | the templates hold no stray braces |
| Weeks.FillTemplate | app_doctr.py:16-35 | what each template yields; quarter and semiyear templates fail |
| Weeks.GetPeriodFills | app_doctr.py:148-163 | `get_period` fills the template with week-based year, unpadded month and day, and week |
| Weeks.GetPeriodDefined | app_doctr.py:157-163 | an identifier exactly for a known key without unsupplied fields, when the week exists |
| Weeks.IntendedDaily | app_doctr.py:17 | the corrected daily identifier is yyyyMMdd of the start date |
| Weeks.IntendedDailyInjective | app_doctr.py:17 | distinct dates get distinct corrected daily identifiers |
| Weeks.DailyPeriod | app_doctr.py:157-163 | as written, daily is week-based year, then unpadded month and day |
| Weeks.WeeksOf2024 | app_doctr.py:128-145 | 2024-01-15 is week 3, 2024-11-05 week 45, 2024-12-31 week 1 of 2025 |
| Weeks.DailyPeriodCollision | app_doctr.py:157-163 | as written, two different dates share "2024115" |
| Weeks.DailyPeriodWrongYear | app_doctr.py:157-163 | as written, 2024-12-31 is "20251231" |
| PageReview.RemoveMarks | app_doctr.py:428 | no check mark is left |
| PageReview.ParseNat | app_doctr.py:428 | `int` succeeds exactly on non-empty digit strings |
| PageReview.MarkedKeepsPage | app_doctr.py:484 | appending " ✓" does not change the page a label names |
| PageReview.PageLabelNumber | app_doctr.py:408 | the label `str(k)` names page k |
| PageReview.Distinct | app_doctr.py:428 | the set of labels: same members, no duplicates |
| PageReview.InsertByPage | app_doctr.py:428 | insertion keeps the multiset |
| PageReview.SortByPage | app_doctr.py:428 | the sort keeps the multiset |
| PageReview.SortByPageSorted | app_doctr.py:428 | the sort orders by page number |
| PageReview.PageOptionsSpec | app_doctr.py:428 | options exist exactly when every label names a page; then each label once, ordered by page |
| PageReview.CurrentPage | app_doctr.py:429 | the first unreviewed option, else 0 |
| PageReview.Confirm | app_doctr.py:484-486 | same length; the selected page's labels end reviewed; others and already reviewed ones unchanged |
| PageReview.ConfirmKeepsPages | app_doctr.py:484-486 | every label still names the page it named before the confirmation |
| PageReview.ConfirmCompletes | app_doctr.py:487 | all pages confirmed afterwards exactly when each label was reviewed or selected |
| PageReview.ConfirmIdempotent | app_doctr.py:484-486 | confirming twice is confirming once |
| LlmOcr.DefaultName | src/msfocr/llm/ocr_functions.py:51 | "Table " followed by the digits of k |
| LlmOcr.DefaultNamesDiffer | src/msfocr/llm/ocr_functions.py:51 | default names of different positions differ |
| LlmOcr.WidestIsLongest | src/msfocr/llm/ocr_functions.py:55 | the width of the frame is the longest row |
| LlmOcr.DataFrameShape | src/msfocr/llm/ocr_functions.py:55 | one row per list, each starting with its list and padded with `None` to the width of the longest list |
| LlmOcr.DataFrameRectangular | tests/test_llm_ocr_functions.py:57-71 | rows of one width are kept unchanged |
| LlmOcr.ParseTableData | src/msfocr/llm/ocr_functions.py:36-59 | names and frames in table order; default "Table k"; each `data` gains its headers in front; frame k is built from it |
| LlmOcr.RescaleSpec | src/msfocr/llm/ocr_functions.py:62-73 | kept within the limit; otherwise the selected dimension becomes the limit, none grows, each is the truncated proportion |
| LlmOcr.EncodedSizeBounds | src/msfocr/llm/ocr_functions.py:88-89 | longer side at most 2048, shorter at most 768; unchanged, or 2048 long, or 768 short |
| LlmOcr.RescaleExamples | tests/test_llm_ocr_functions.py:80-93 | 3000x1500 gives 2048x1024, 1536x768, and 1536x768 once encoded |

## Left out

- The Streamlit UI, authentication, uploads and `json_export`. These are interface and
  network code. Only the page-review lines and the pipeline calls are modelled.
- The DHIS2 clients. The data-element and category-option vocabularies, and the form
  groups, are parameters.
- OCR and model calls: `extract_tables`, `model(doc)` and the OpenAI requests. Their
  results are inputs.
- `correct_image_orientation`, the PNG and base64 encoding, and the image pixels. Only the
  size arithmetic of `rescale_image` is modelled.
- The thread pool of `extract_text_from_batch_images`.
- `generate_key_value_pairs` of src/msfocr/docTR/ocr_functions.py. It calls a
  `data_upload_DHIS2.getUID` that src/msfocr/data/data_upload_DHIS2.py does not define.
- Floating point. Similarity, confidence means and scale factors use exact reals and exact
  integer floor division. `int(w * (limit / d))` can round one pixel differently.
- EvaluateCells.FloatText: float64 holds integers exactly only up to 2^53 and `str` writes
  them in exponent notation from 10^16; the model writes every integer of a float64 column
  as its decimal text followed by ".0".
- Text.StripLeft, Text.StripRight: only the ASCII whitespace of `str.isspace` is stripped
  (blank, tab, line feed, carriage return, U+000B, U+000C and U+001C to U+001F). Python's
  `str.strip` and the `\s` class of `strptime`'s patterns also accept non-ASCII spaces such
  as U+0085, U+00A0 and U+2028, and `int()` and `\d` accept non-ASCII digits (Dates
  formats, PageReview.ParseNat).
- `simple_eval` beyond integer literals written in plain decimal digits, `+`, `-`,
  parentheses and the names True, False and None. Any other input is treated as an
  evaluation failure, and the column holding it is then left unchanged, whereas Python
  would evaluate it. This includes:
  - literals with underscores (`1_000`) and hexadecimal, octal and binary literals
    (`0x1F`, `0o7`, `0b1`);
  - several statements in one cell, such as "12\n8" or "12;8", where simpleeval evaluates
    the first statement and gives 12.
- pandas copy-versus-view behaviour is not modelled. The intended in-place effect is:
  - `clean_up`'s chained assignment rewrites the cell;
  - `evaluate_cells` slice writes reach the table.
- CorrectFieldNames: on a raised exception the state is only bounded. Shapes are kept and
  only labels have changed; which tables were already rewritten is not stated.
- CorrectFieldNames (FieldNames.RowPasses, FieldNames.ColumnPasses): pairwise-distinct
  frames are required, so a frame listed twice is not modelled there. CleanTables and
  EvaluateCells do handle a frame listed twice: cleaning and evaluating are idempotent, so
  a second visit leaves the frame as the first left it.
- LlmOcr.ParseTableData requires pairwise-distinct dictionaries. A list decoded from
  JSON always has them.
- Dates.Render: `%Y` is written unpadded, as the Linux C library does. Years below 1000 are
  therefore shorter than four digits.
- `strptime` supports only the directives of the seven formats, over ASCII case folding.
- `get_sheet_type` takes its data-set list as a parameter. Each module passes its own
  constant.
- The nested loops of the confidence grid and of the sheet scan are split into one method
  per loop level.
- Weeks.Format: only the `str.format` features the templates use are modelled. These are
  literal text, `{{`, `}}` and `{name}`. Conversions, format specs and indexing are not
  modelled.
- Weeks.Template: templates are held as pieces, and `Render` writes them as text.
  `FormatRender` links the text to the pieces.
- PageReview.PageOptions: the order of labels with equal page numbers follows Python's set
  iteration order, which the model does not fix.
- PageReview.ParseNat: `int` also accepts a sign, underscores and non-ASCII digits; only
  plain digits are modelled.
- `st.selectbox`, `st.rerun` and session state. They are modelled as sequences passed in
  and returned.

## Findings

| source | as written | input that shows it | evidently intended | confidence | as-written member | corrected member |
|---|---|---|---|---|---|---|
| app_doctr.py:157-163 | the Daily identifier is `{year}{month}{day}` with unpadded month and day | 2024-01-15 and 2024-11-05 both give "2024115" | zero-padded `yyyyMMdd`, distinct per date | not executed | Weeks.DailyPeriodCollision | Weeks.IntendedPeriod (Weeks.IntendedDaily, Weeks.IntendedDailyInjective) |
| app_doctr.py:157-163 | the year of every period is the week-based year of `week_from_date` | 2024-12-31 gives "20251231" | the calendar year for non-weekly periods: "20241231" | not executed | Weeks.DailyPeriodWrongYear | Weeks.IntendedPeriod (Weeks.IntendedDaily) |
