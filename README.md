# DataLens core in Dafny

A Dafny model of the analysis core of DataLens, a data-profiling assistant.
Three parts are modelled:

- **Column profiler** (`profiler.py`). It gives each column a pattern label,
  IQR outlier fences and an outlier count, min/max/median for numeric
  columns, an overview record per column and the ordered "top insights"
  list.
- **Rule generator** (`pbl_generator.py`). It writes advisory validation
  rules ("PBL") for a single column. It also writes rules for a target
  column compared with a reference column, and suggests a regex from a
  sample of values.
- **Chat helpers** (`chat_agent.py`). They find which column a free-text
  question names, and compute the statistics of a non-numeric column.

A column is a sequence of optional cells, with `None` for a missing value.

- The rule generator sees each cell's `str()` form.
- The profiler and the chat helpers see a `Cell`. It holds the text and the
  number that `pd.to_numeric(..., errors='coerce')` makes of the cell, or
  `None` when coercion gives NaN.
- A closed `NumericKind | OtherKind` tag stands in for
  `pd.api.types.is_numeric_dtype`.

Regular expressions become explicit ASCII character predicates (module
`Patterns`). Python's string order becomes `Text.LexLe`.

Each advisory message is a constructor of a rule datatype. A rank function
fixes each message's place in the output. The order of the emitted list is
therefore part of the contract, and `ColumnRuleText` / `ReferenceRuleText`
give the message strings.

Pandas' random draws (`Series.sample`) are caller-supplied. `IsSampleOf`
says a draw has `min(len, n)` values and is a sub-multiset of the values it
is drawn from.

## Layout

| file | module | contents |
|---|---|---|
| wrappers.dfy | Wrappers | `Option` |
| seqs.dfy | Seqs | see below |
| text.dfy | Text | ASCII character classes, `str.lower()`, string order, `str.join`, `str(n)` for counts |
| patterns.dfy | Patterns | the regexes `\d+`, `[A-Za-z ]+`, `@`, the date substring, the phone shape |
| ratios.dfy | Ratios | `distinct / max(1, n) < 0.02` in integer form |
| frame.dfy | Frame | cells, columns, `astype(str)`, numeric coercion |
| pbl_generator.dfy | PblGenerator | `infer_length_rules`, `is_numeric_only`, `is_alpha_only`, `generate_pbl_for_column` |
| reference_rules.dfy | ReferenceRules | `_suggest_regex_from_sample`, `derive_rules_from_reference` |
| profiler.dfy | Profiler | `detect_pattern`, `compute_outliers`, `profile_dataframe` |
| chat_agent.dfy | ChatAgent | `extract_column_name`, `get_column_stats` (non-numeric branch and nulls) |

`Seqs` holds the pandas basics: `dropna`, `isna().sum()`, `unique`,
`nunique`, `head`, sampling and sorting.

Two kinds of code are written imperatively, as in the source:

- loops that append to a list or grow a set: `DetectPattern`,
  `ProfileDataframe`, `FirstKnownWord`;
- functions that build their `rules` list by successive appends:
  `GeneratePblForColumn`, `DeriveRulesFromReference`.

Each such method is proved equal to a specification function. Both
rule-generator methods are specified by an "append pipeline": one function
per source block, applied in the source's order. The properties are then
proved about those functions.

Where the code's behaviour looks unintended, the model follows the code:

- The reference-based null check runs on series whose nulls were already
  dropped, so its first branch is always taken. The model always emits
  "Nulls are NOT allowed (reference has no nulls)." (`DeriveHeader`).
- The email and date tests of the regex heuristic skip empty strings. So a
  sample of only empty strings gets the email regex
  (`SuggestRegexEmptyStrings`).
- The numeric length rule of `generate_pbl_for_column` shows only the
  minimum and the maximum length. The modal length is computed but not
  shown.

## Model

| member | source | states |
|---|---|---|
| PblGenerator.Lengths | datalens-main/src/pbl_generator.py:9 | one length per value, equal to that value's length |
| PblGenerator.Mode | datalens-main/src/pbl_generator.py:12 | `mode().iloc[0]`: a most frequent value, and the smallest of the most frequent |
| PblGenerator.InferLengthRules | datalens-main/src/pbl_generator.py:5-13 | None exactly when there is no present value; otherwise min ≤ typical ≤ max |
| PblGenerator.InferLengthRulesMeaning | datalens-main/src/pbl_generator.py:9-12 | min and max are the shortest and longest present lengths; typical is the smallest most frequent length |
| PblGenerator.RatioAtLeast98 | datalens-main/src/pbl_generator.py:19 | for n > 0, `m / n >= 0.98` iff `100 m >= 98 n` |
| PblGenerator.NumericOnlyIsMeanTest | datalens-main/src/pbl_generator.py:15-19 | the integer test is "present values non-empty and the all-digit fraction ≥ 0.98" |
| PblGenerator.AlphaOnlyIsMeanTest | datalens-main/src/pbl_generator.py:21-25 | the same for letters-and-spaces values |
| PblGenerator.CandidateKeyIffNoDuplicates | datalens-main/src/pbl_generator.py:55 | `nunique == len(dropna())` iff the present values have no duplicate |
| PblGenerator.FallbackSample | datalens-main/src/pbl_generator.py:44-45 | the fallback branch inspects at most 50 values |
| PblGenerator.GeneratePblForColumn | datalens-main/src/pbl_generator.py:27-62 | the appended rules are exactly the pipeline `PblRules(col)` |
| PblGenerator.AppendClassRules | datalens-main/src/pbl_generator.py:35-53 | the character-class block appends exactly what `AddClass` says |
| PblGenerator.AppendCardinalityRules | datalens-main/src/pbl_generator.py:55-60 | the cardinality block appends exactly what `AddCardinality` says |
| PblGenerator.ColumnRuleText | datalens-main/src/pbl_generator.py:29-60 | each rule's message, as the source writes it; the length rules show the minimum and the maximum length |
| PblGenerator.PblOrdered | datalens-main/src/pbl_generator.py:27-62 | each kind of rule appears at most once, in the order nullability, class, length, caution, cardinality |
| PblGenerator.PblNullabilityFirst | datalens-main/src/pbl_generator.py:29-33 | the first rule is the only nullability rule: "NOT allowed" iff zero nulls, "allowed" iff some null |
| PblGenerator.PblCharacterClass | datalens-main/src/pbl_generator.py:35-53 | numeric rules iff the numeric test holds; alphabetic iff it fails and the alpha test holds; email, phone and caution only in the fallback, email and phone iff the first 50 show them |
| PblGenerator.PblNumericBranch | datalens-main/src/pbl_generator.py:35-40 | a numeric column gives "only numeric", then the length range with min ≤ max, then "no special characters", as rules 1 to 3 |
| PblGenerator.PblLengthRule | datalens-main/src/pbl_generator.py:37-52 | a length rule carries the shortest and longest present length, only in its own branch; the fallback always has one when values are present |
| PblGenerator.PblCardinality | datalens-main/src/pbl_generator.py:55-60 | "candidate key" iff the present values are distinct; else "low cardinality" iff distinct / max(1, len) < 0.02; the last rule is one of them exactly when due |
| PblGenerator.PblAllNullColumnIsKey | datalens-main/src/pbl_generator.py:55-56 | an all-null column is a "candidate key" |
| ReferenceRules.SuggestRegexFromSample | datalens-main/src/pbl_generator.py:71-96 | None iff the sample is empty |
| ReferenceRules.SuggestRegexFirstHundred | datalens-main/src/pbl_generator.py:80 | only the first 100 values decide the result |
| ReferenceRules.SuggestRegexIgnoresTail | datalens-main/src/pbl_generator.py:80 | values appended after the first 100 change nothing |
| ReferenceRules.SuggestRegexPrecedence | datalens-main/src/pbl_generator.py:83-95 | digits iff all digits; email iff not, and every non-empty value has `@`; date likewise after email; else the length range |
| ReferenceRules.SuggestRegexLengthBounds | datalens-main/src/pbl_generator.py:91-95 | the length range spans exactly the shortest and longest inspected value, min ≤ max |
| ReferenceRules.SuggestRegexEmptyStrings | datalens-main/src/pbl_generator.py:86 | a sample made only of empty strings gives the email regex |
| ReferenceRules.FractionFacts | datalens-main/src/pbl_generator.py:134 | for 0 ≤ m ≤ n, n > 0: 0 ≤ m/n ≤ 1, with 1 iff m = n and 0 iff m = 0 |
| ReferenceRules.OverlapFraction | datalens-main/src/pbl_generator.py:129-134 | 0 ≤ fraction ≤ 1; 1 iff every target value is a reference value (non-empty target); 0 iff none is |
| ReferenceRules.DistinctReference | datalens-main/src/pbl_generator.py:138 | min(distinct, 200) values, sorted, no duplicates, all reference values, and all of them when there are at most 200 |
| ReferenceRules.DistinctReferenceAnyOrder | datalens-main/src/pbl_generator.py:130-138 | whatever arrangement of the distinct values is sorted, the capped list is the same |
| ReferenceRules.DeriveRulesFromReference | datalens-main/src/pbl_generator.py:98-184 | the appended rules are exactly the pipeline `ReferenceRulesOf(...)` |
| ReferenceRules.AppendOverlapRules | datalens-main/src/pbl_generator.py:129-150 | the overlap block appends exactly what `OverlapBlock` says |
| ReferenceRules.AppendSummaryRules | datalens-main/src/pbl_generator.py:161-181 | pattern, distinct counts and target cardinality append exactly what the pipeline says |
| ReferenceRules.ReferenceRuleText | datalens-main/src/pbl_generator.py:111-181 | each rule's message, as the source writes it; counts are rendered in decimal and the fraction by the `.2f` formatter |
| ReferenceRules.DeriveOrdered | datalens-main/src/pbl_generator.py:111-184 | each kind of rule appears at most once, in the source's block order |
| ReferenceRules.DeriveHeader | datalens-main/src/pbl_generator.py:108-125 | the first rule is always "Nulls are NOT allowed (reference has no nulls)."; "reference key" iff the present reference values are distinct |
| ReferenceRules.DeriveOverlap | datalens-main/src/pbl_generator.py:127-150 | enumeration (≤ 50) with sample, or lookup, then the fraction, iff both sides are non-empty and fraction ≥ threshold; partial iff 0 < fraction < threshold; no-overlap iff fraction = 0 < threshold |
| ReferenceRules.DefaultThresholdFullOverlap | datalens-main/src/pbl_generator.py:101-144 | with the default threshold 0.95, a non-empty target covered by the reference gets the fraction-1 rule and no "no overlap" rule |
| ReferenceRules.DeriveOverlapOnly | datalens-main/src/pbl_generator.py:127-150 | no other overlap message appears, and none when a side is empty |
| ReferenceRules.AllowedSampleValues | datalens-main/src/pbl_generator.py:138-141 | the values shown are at most 20, sorted, distinct reference values |
| ReferenceRules.DeriveAllowedSample | datalens-main/src/pbl_generator.py:141 | a listed sample in the rules is at most 20 sorted distinct reference values |
| ReferenceRules.DeriveAllowedCounts | datalens-main/src/pbl_generator.py:139-143 | enumeration and lookup counts are the capped list's length; enumeration iff at most 50 |
| ReferenceRules.DerivePattern | datalens-main/src/pbl_generator.py:163-167 | a pattern rule for p iff the regex of the chosen sample is p |
| ReferenceRules.ChosenSampleSource | datalens-main/src/pbl_generator.py:163-165 | the reference sample when the reference has values, else the target sample; empty only when nothing can be drawn |
| ReferenceRules.DeriveDistinctCounts | datalens-main/src/pbl_generator.py:170-173 | a distinct-count rule for each non-empty side, carrying its distinct count, and no other |
| ReferenceRules.DeriveTargetCardinality | datalens-main/src/pbl_generator.py:176-181 | "candidate key" iff the target values are distinct; else "low cardinality" iff under 2%; the last rule is one of them exactly when due |
| Ratios.LowCardinalityIsRatioTest | datalens-main/src/profiler.py:77 | the integer test is `distinct / max(1, count) < 0.02` |
| Frame.Texts | datalens-main/src/profiler.py:58 | `astype(str)` keeps length and maps each cell to its text |
| Frame.Numbers | datalens-main/src/profiler.py:63 | coercion drops at least the missing cells; each number comes from a present cell |
| Frame.NumbersCell | datalens-main/src/profiler.py:63 | a missing or non-numeric cell gives no number, and a numeric cell gives exactly its number |
| Frame.NumbersConcat | datalens-main/src/profiler.py:63 | coercion and `dropna()` distribute over concatenation, so each number is kept once per occurrence, in column order |
| Frame.NumbersOfNumeric | datalens-main/src/profiler.py:62-63 | in a column whose present cells all hold numbers, coercion drops exactly the missing cells, and the i-th number is the number of the i-th present cell |
| Patterns.AllDigits | datalens-main/src/profiler.py:18 | `re.fullmatch(r'\d+', v)`: a non-empty string of ASCII digits |
| Patterns.AlphaOrSpace | datalens-main/src/profiler.py:20 | `re.fullmatch(r'[A-Za-z ]+', v)`: a non-empty string of ASCII letters and spaces |
| Patterns.HasAt | datalens-main/src/profiler.py:22 | `re.search(r'@', v)`: some character is `@` |
| Patterns.HasDate | datalens-main/src/profiler.py:24 | `re.search` of the date pattern: somewhere 2-4 digits, `-` or `/`, 1-2 digits, `-` or `/`, 1-2 digits |
| Patterns.PhoneLike | datalens-main/src/pbl_generator.py:48 | `re.fullmatch(r'\+?\d[\d\-\s]{6,}', v)`: an optional `+`, a digit, then six or more digits, dashes or whitespace |
| Patterns.DigitsExcludeOthers | datalens-main/src/profiler.py:18-24 | a digit string is not alphabetic, has no `@` and holds no date |
| Patterns.PhoneLikeLength | datalens-main/src/pbl_generator.py:48 | seven or more digits are phone-like; a phone-like value has at least seven characters, is not alphabetic and has no `@` |
| Patterns.SearchInContext | datalens-main/src/profiler.py:22-24 | the `@` and date searches match anywhere: text around a match keeps it a match |
| Patterns.DateNeedsSeparator | datalens-main/src/profiler.py:24 | a date match needs at least six characters, one of them `-` or `/` |
| Patterns.DateExamples | datalens-main/src/profiler.py:24 | `2024-01-15` and `on 12/31/99` contain dates, `1/2/3` does not |
| Patterns.ShapeExamples | datalens-main/src/pbl_generator.py:48 | `+1 555-0100` is phone-like, `555-01` and `+` are not; `0042` is all digits, the empty string and `4 2` are not; `New York` is alphabetic, `O'Brien` is not |
| Profiler.ValueCategories | datalens-main/src/profiler.py:17-25 | a value is numeric, alpha, email-like, date-like iff it matches each test; several can hold |
| Profiler.DetectPattern | datalens-main/src/profiler.py:11-26 | the loop's set is the categories of the whole sample, and the result is `PatternLabel` |
| Profiler.CategoriesMembers | datalens-main/src/profiler.py:16-25 | a category is in the set iff some sampled value shows it |
| Profiler.CategoriesGrow | datalens-main/src/profiler.py:16-25 | the set only grows while the sample is scanned |
| Profiler.CategoriesOfValueSet | datalens-main/src/profiler.py:16-25 | the set depends only on which values were sampled |
| Profiler.SortStrings | datalens-main/src/profiler.py:26 | `sorted`: ascending in string order and a permutation |
| Profiler.AllNamesOrdered | datalens-main/src/profiler.py:26 | the four names are in string order, without repeats |
| Profiler.LabelIsSortedJoin | datalens-main/src/profiler.py:26 | the label is "mixed" for no category, else the join of the sorted names, whatever listing is sorted |
| Profiler.LabelWords | datalens-main/src/profiler.py:26 | no label reads "empty"; it reads "mixed" iff no category matched |
| Profiler.PatternLabelCases | datalens-main/src/profiler.py:12-26 | "empty" iff no present value; else "mixed" or the sorted join |
| Profiler.PatternFromValueSet | datalens-main/src/profiler.py:15-26 | with at most 500 present values, series with equal value sets get equal labels, whatever was drawn |
| Profiler.Ascending | datalens-main/src/profiler.py:32-33 | sorted, and a permutation of the values |
| Profiler.QuantileBetween | datalens-main/src/profiler.py:32-33 | an interpolated quantile lies between the two values it interpolates |
| Profiler.QuantileMonotone | datalens-main/src/profiler.py:32-33 | quantiles grow with their order |
| Profiler.ComputeOutliers | datalens-main/src/profiler.py:28-38 | "none" iff no number; else the Tukey fences lower = q1 − 1.5·(q3 − q1) and upper = q3 + 1.5·(q3 − q1), lower ≤ q1 ≤ q3 ≤ upper, and count = the number of values strictly outside them; count ≤ n |
| Profiler.OutliersOrderFree | datalens-main/src/profiler.py:28-38 | the result depends only on the multiset of values |
| Profiler.ConstantHasNoOutliers | datalens-main/src/profiler.py:32-37 | one repeated value has no outliers |
| Profiler.MinReal | datalens-main/src/profiler.py:65 | `min()`: a value, below or equal to all |
| Profiler.MaxReal | datalens-main/src/profiler.py:66 | `max()`: a value, above or equal to all |
| Profiler.OutliersAtExtremes | datalens-main/src/profiler.py:37 | some outlier iff the min or max lies past a fence |
| Profiler.MedianIsSecondQuartile | datalens-main/src/profiler.py:68 | `median()` equals the interpolated second quartile |
| Profiler.SummaryOrdered | datalens-main/src/profiler.py:32-68 | min ≤ q1 ≤ median ≤ q3 ≤ max |
| Profiler.Summarize | datalens-main/src/profiler.py:62-71 | min, max, median None iff no number; min and max are numbers bounding all; min ≤ median ≤ max; the outliers of the numbers |
| Profiler.ProfileOf | datalens-main/src/profiler.py:52-71 | name and count; nulls ≤ count; distinct ≤ present; nulls = 0 iff no cell is missing; the first ≤ 5 present values in order; the pattern label; numeric entries iff numeric |
| Profiler.NumericStatsPresence | datalens-main/src/profiler.py:62-68 | in a numeric column, min, max, median are None iff every cell is missing |
| Profiler.ProfileColumn | datalens-main/src/profiler.py:53-71 | the stats dict built step by step is `ProfileOf` |
| Profiler.ColumnInsightsCases | datalens-main/src/profiler.py:72-78 | numeric: one outlier insight iff count > 0; other: a null insight iff nulls > 0, then low-cardinality iff distinct / max(1, count) < 0.02 |
| Profiler.InsightsInColumnOrder | datalens-main/src/profiler.py:52-78 | the list is the insights of earlier columns, this column's, then later columns' |
| Profiler.InsightsFromColumns | datalens-main/src/profiler.py:72-78 | every insight comes from some column |
| Profiler.AppendInsights | datalens-main/src/profiler.py:72-78 | one iteration appends exactly that column's insights |
| Profiler.ProfileDataframe | datalens-main/src/profiler.py:49-93 | one overview entry per column in order; insights in column order; correlations iff at least two numeric columns |
| Seqs.NullCount | datalens-main/src/profiler.py:56 | at most the length; 0 iff no cell missing; the length iff all missing |
| Seqs.NonNull | datalens-main/src/profiler.py:12 | present values plus nulls make the length; a value is kept iff some cell holds it |
| Seqs.NonNullCell | datalens-main/src/profiler.py:12 | a missing cell gives nothing, a present cell gives its value |
| Seqs.NonNullConcat | datalens-main/src/profiler.py:12 | `dropna` distributes over concatenation, so each present value is kept once per occurrence, in order |
| Seqs.Unique | datalens-main/src/chat_agent.py:34 | no duplicates, the same values, in order of first appearance |
| Seqs.UniqueAll | datalens-main/src/pbl_generator.py:55 | as many distinct values as values iff no duplicates |
| Seqs.TakeUnique | datalens-main/src/chat_agent.py:34 | the first k distinct values, in first-appearance order, skipping no earlier value |
| Seqs.FullSample | datalens-main/src/profiler.py:15 | a draw of min(len, n) values with len ≤ n is all the values |
| Seqs.SampleNonEmpty | datalens-main/src/pbl_generator.py:163-164 | a draw is empty iff there is nothing to draw; it holds only drawn values |
| Seqs.CountIfTwo | datalens-main/src/profiler.py:83 | at least two satisfy iff two distinct positions satisfy |
| Seqs.SortedUnique | datalens-main/src/pbl_generator.py:138 | under an antisymmetric order, sorting has one answer |
| Text.Lower | datalens-main/src/chat_agent.py:16-17 | length kept; each ASCII capital lowered, others kept |
| Text.LexLeIsOrder | datalens-main/src/profiler.py:26 | Python's string order is total, transitive, antisymmetric |
| Text.NatToStringRoundTrip | datalens-main/src/pbl_generator.py:171-173 | a rendered count reads back as the count |
| ChatAgent.LowerColumnsKeys | datalens-main/src/chat_agent.py:16 | the keys are exactly the lower-cased names |
| ChatAgent.LowerColumnsValues | datalens-main/src/chat_agent.py:16 | each key maps to a column whose lower-cased name is the key |
| ChatAgent.LowerColumnsLaterWins | datalens-main/src/chat_agent.py:16 | of names with the same lower-cased form, the last is kept |
| ChatAgent.TokensAreWords | datalens-main/src/chat_agent.py:17 | every token is a non-empty run of `[A-Za-z0-9_]` |
| ChatAgent.TokensAreMaximalRuns | datalens-main/src/chat_agent.py:17 | every token is an interval of the string that is a maximal run of `[A-Za-z0-9_]`: no word character precedes or follows it |
| ChatAgent.TokenSpansAreTokens | datalens-main/src/chat_agent.py:17 | there is one span per token, the m-th token is the text of the m-th span, and each span is a maximal run |
| ChatAgent.TokenSpansIncrease | datalens-main/src/chat_agent.py:17 | each span ends before the next one starts, so the tokens come in increasing position |
| ChatAgent.TokenSpansComplete | datalens-main/src/chat_agent.py:17 | every maximal run of `[A-Za-z0-9_]` in the string is one of the spans, so no token is missed |
| ChatAgent.TokenSpansInOrder | datalens-main/src/chat_agent.py:17 | the spans list every maximal run, each a maximal run, left to right, as `re.findall` reports them |
| ChatAgent.TokensUnique | datalens-main/src/chat_agent.py:17 | any list of the texts of all maximal runs, given left to right, is exactly `Tokens` and its spans are exactly `TokenSpans`, so `Tokens` is `re.findall` |
| ChatAgent.TokensKeepWordChars | datalens-main/src/chat_agent.py:17 | the tokens run together are the string minus its non-word characters |
| ChatAgent.FirstKnownWord | datalens-main/src/chat_agent.py:17-20 | None iff no word is a key; else the value of the first word that is |
| ChatAgent.ScanOverNames | datalens-main/src/chat_agent.py:16-20 | the scan finds nothing iff no word is a lower-cased name, and finds a name |
| ChatAgent.ExtractColumnName | datalens-main/src/chat_agent.py:14-20 | None iff no token equals a lower-cased column name; else the column of the first matching token; a result is a column, and its lower-cased name has only `[A-Za-z0-9_]` characters |
| ChatAgent.GetColumnStats | datalens-main/src/chat_agent.py:22-38 | nulls counted on the whole column; categorical stats iff non-numeric: distinct count and the texts of the first ≤ 10 distinct values |
| ChatAgent.DistinctSampleFacts | datalens-main/src/chat_agent.py:33-35 | the listed values are distinct present values, min(distinct, 10) of them, in first-appearance order, skipping none that appears earlier |

## Left out

- `app.py` is not part of this model. It is the Streamlit user interface and the file loaders: I/O and presentation only.
- Import-time calls `st.set_page_config` and `st.title` (profiler.py lines 8-9): user-interface side effects.
- `isolation_anomaly_scores` and the `anomaly_scores` entry: a scikit-learn isolation forest with a random state. `ProfileDataframe` returns no anomaly scores.
- Correlation values (`numeric_df.corr().round(3)`) are floating-point library numerics. Only whether correlations are computed is modelled (`Profile.hasCorrelations`).
- `mean` and `std` in the profiler, and the whole numeric branch of `get_column_stats`: floating-point statistics.
- The Vertex AI client, `answer_question_about_df`, its prompt and `generate_content`: network calls to a language model.
- Random sampling (`Series.sample`): the draws are parameters constrained by `IsSampleOf`. The draw size `sample_size` (default 500) is an ordinary parameter of `DeriveRulesFromReference`; only the default threshold is a named constant.
- The `.2f` rendering of the overlap fraction is a function parameter of `ReferenceRules.ReferenceRuleText`. The fraction itself is kept as an exact `real`.
- Unicode semantics of `\d`, `\s`, `[A-Za-z]` and `str.lower()`: only ASCII is modelled. `Text.LowerChar` changes only `A`-`Z`.
- Pandas dtypes and their strings (`dtype` entries, bool and datetime columns): a column carries a closed numeric/non-numeric tag instead.
- Floating-point arithmetic: quartiles, fences and the median are exact `real`s. Coercion failures (NaN) are `None`. Infinite values, which `pd.to_numeric` gives for `"inf"`, are not modelled: a `real` cannot be infinite.
- The "Nulls are present…" and "Nulls allowed (reference permits nulls)." messages of `derive_rules_from_reference`: the null-dropped series make them unreachable, so no constructor represents them.
- The numeric-range block of `derive_rules_from_reference` (pbl_generator.py lines 153-159): `is_numeric_dtype` on `astype(str)` series never holds, so the model emits nothing there.
- Profiler.ProfileDataframe: requires distinct column names. With repeated names `df[col]` returns a frame, `s.dtype` raises, and the overview dict would merge entries. That failure is not modelled.
- Profiler.ProfileOf: `distinct` counts distinct present cells, and a cell is its text and its coerced number. Pandas compares the original objects, where `1 == 1.0 == True`; that equality is not modelled. `ChatAgent.GetColumnStats` counts the same way.
- PblGenerator.PblCardinality: the distinct count of `generate_pbl_for_column` (`IsCandidateKey` and the low-cardinality test) is taken over the cells' `str()` forms. Pandas' `nunique` compares the raw objects, so an object column `[1, "1"]` has 2 distinct values in pandas and 1 in the model, and the "candidate key" rule differs. The reference-based rules count `astype(str)` series and are not affected.
- ChatAgent.GetColumnStats: does not model the `dtype` entry. `KeyError` for an unknown column is not modelled, because the caller only passes names from `extract_column_name`.
- Profiler.NumericStatsPresence: assumes every present cell of a numeric column coerces to a number (`Frame.WellKinded`), as a numeric dtype guarantees.
- ChatAgent.ExtractColumnName: column names are strings. `c.lower()` raises `AttributeError` on a non-string column name (an integer column label, say). That failure is not modelled.
- ReferenceRules.DeriveRulesFromReference: the draw size is a `nat`. A negative `sample_size` makes pandas raise `ValueError`, and that is not modelled.
- Profiler.Summarize: covers min, max, median and outliers; `mean` and `std` are left out as above.
