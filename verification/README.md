# Hamchang High School admissions dashboard — record classification and filtering

The dashboard loads one table of graduates' admission results. For each
record, `load_data` does the following:

- It parses the free-text offer summary (주요합격) into a representative
  university, a raw track label and a representative department. Only the
  first comma-separated offer is read.
- It classifies the track label into 교과/종합/논술/정시/기타.
- It classifies the department into one of four major groups, or 기타.
- It flags the university as capital-region, national or teachers' college,
  by exact membership in three fixed lists.
- It flags the department as medical/dental/pharmacy/oriental/veterinary, or
  nursing.
- When the file has no outcome column (합격여부), it infers an outcome.

The sidebar's choices then narrow the table step by step:

- year range,
- middle school,
- grade range,
- track category,
- major group,
- a keyword searched in the offer text,
- "any selected group flag set".

The model has six modules:

- `Wrappers`: `Option` and `Result`.
- `Text`: Python's `str.strip`, `str.split` and `in` on strings, written out
  over `seq<char>`. Whitespace is the exact set of code points `str.isspace`
  accepts.
- `OfferParser`: `parse_offer`, as functions with lemmas.
- `Classifier`: the keyword classifiers and the university lists.
- `Loader`: the per-record derivation and the loading loop.
- `Filters`: the filter stage. It is a method that reassigns `filtered` once
  per active condition. The group condition builds its mask in a loop over
  the selected groups. Each step is proved to be the selection of the loaded
  table by the conditions applied so far.

A missing, NaN or non-string cell is `None`. Numeric cells are
`Option<int>`.

Four facts of the code a reader may not expect:

- 서울대학교 is on both the capital-region and the national list
  (streamlit_app.py:112 and :120), so a 서울대학교 row carries both flags.
  `Classifier.SeoulNationalInBoth` proves that overlap.
- With neither an offer column nor an outcome column, line 155 raises a
  KeyError. With an offer column but no records, the empty parse at line 71
  adds no 전형유형원문 column, and line 92 raises a KeyError. In both cases
  `Loader.LoadTable` returns an error.
- 치과 is on the medical-flag list (line 133) but not on the medical-group
  list (line 98). The flag therefore does not imply the group, and
  `Classifier.DentalHygieneFlaggedButUngrouped` and
  `Classifier.DentalTechnologyFlaggedButEngineering` exhibit this.
- 간호 is on the medical-group list, so every nursing department is in the
  medical group.

## Model

| member | source | states |
|---|---|---|
| Text.TrimStart | streamlit_app.py:47 | `lstrip()` returns a suffix of its input that is empty or starts with non-whitespace |
| Text.TrimStartDropsSpace | streamlit_app.py:47 | every character `lstrip()` drops is whitespace |
| Text.TrimEnd | streamlit_app.py:47 | `rstrip()` returns a prefix of its input that is empty or ends with non-whitespace |
| Text.TrimEndDropsSpace | streamlit_app.py:47 | every character `rstrip()` drops is whitespace |
| Text.Strip | streamlit_app.py:47 | `strip()` is empty exactly when its input is all whitespace, and otherwise starts and ends with non-whitespace |
| Text.StripIsSlice | streamlit_app.py:47 | `strip()` returns a contiguous piece of its input, starting where `lstrip()` stops |
| Text.StripIdempotent | streamlit_app.py:50 | stripping twice is stripping once |
| Text.TrimKeepsOut | streamlit_app.py:50 | stripping never introduces a character that was absent |
| Text.StripPrefix | streamlit_app.py:55 | stripping preserves the prefix order |
| Text.Split | streamlit_app.py:50-51 | `split(sep)` yields at least one piece |
| Text.SplitPiecesFree | streamlit_app.py:50-51 | no piece of `split(sep)` contains `sep` |
| Text.JoinSplit | streamlit_app.py:50-51 | joining the pieces of `split(sep)` with `sep` gives back the input |
| Text.SplitJoin | streamlit_app.py:50-51 | splitting a join of separator-free pieces gives the pieces back, so split and join are inverse |
| Text.SplitAtFirst | streamlit_app.py:50 | the text before the first separator is the first piece, and the rest is split on its own |
| Text.SplitNoSeparator | streamlit_app.py:50 | a text without the separator splits into itself alone |
| Text.StripJoin | streamlit_app.py:50-54 | stripping a join on a non-whitespace separator strips only the outer ends of the first and last pieces |
| Text.SplitStrip | streamlit_app.py:50-54 | stripping before splitting changes no piece's stripped form and not the number of pieces |
| Text.StripBeforeSeparator | streamlit_app.py:54-55 | the university read from a stripped segment equals the one read from the raw segment |
| Text.SplitFirstPiece | streamlit_app.py:55 | the first piece is a separator-free prefix of the text, ending at its end or at the first separator |
| Text.ContainsAt | streamlit_app.py:82-89 | Python `k in s` holds exactly when `k` occurs at some index of `s` |
| Text.NotContainsMissingChar | streamlit_app.py:97-104 | a keyword with a character absent from the text is not contained in it |
| Text.Contains | streamlit_app.py:82-89 | Python `k in s`: the empty string is in every text, and nothing longer than the text is in it |
| Text.AnyContains | streamlit_app.py:98 | `any(k in s for k in keys)` holds exactly when some keyword of the list is contained |
| OfferParser.FirstEntry | streamlit_app.py:50 | the first offer is trimmed and contains no comma, and a summary without a comma is a single offer |
| OfferParser.ParseEntry | streamlit_app.py:50-66 | a first offer always yields a university and a track label, and yields a department exactly when it has at least three `/`-segments |
| OfferParser.ParseOffer | streamlit_app.py:41-68 | a missing or whitespace-only summary gives all-`None` fields and nothing else does; any other summary yields a university and a track label |
| OfferParser.ParsedFieldsClean | streamlit_app.py:50-66 | every parsed field is trimmed and contains no comma; the university contains no `/` or `(`; the department contains no `/` |
| OfferParser.OfferFields | streamlit_app.py:50-66 | gives each field in terms of the raw text. The university is the trimmed part of segment 0 before its first `(`. The track label is segment 1 trimmed, or the trimmed first entry when there is one segment. The department is segment 2 trimmed exactly when there are at least three segments |
| OfferParser.FirstOfferOnly | streamlit_app.py:50 | nothing after the first comma affects the parse. A blank first entry in a non-blank text gives empty strings, not `None` |
| OfferParser.LaterSegmentsIgnored | streamlit_app.py:64-66 | segments past the third never reach a field |
| OfferParser.SingleSegmentFallback | streamlit_app.py:58-62 | without `/`, the track label is the whole trimmed entry, parenthetical kept, and there is no department. The university is a prefix of that track label |
| OfferParser.ThreeSegments | streamlit_app.py:50-66 | "u/t/d" parses to the trimmed parts, with the `(`-suffix dropped from the university only |
| OfferParser.CleanOffer | streamlit_app.py:41-68 | a clean "university(campus)/track/department" parses back to exactly its parts |
| OfferParser.CleanSingleSegment | streamlit_app.py:58-62 | a clean "label(detail)" parses to university `label` and the whole text as track label |
| OfferParser.CleanOfferFirst | streamlit_app.py:50 | a clean first offer followed by any others parses to the first offer's parts |
| OfferParser.ExampleThreeSegments | streamlit_app.py:41-68 | "경운대학교(구미)/학생부교과(일반전형1)/의료서비스경영학과" parses to 경운대학교 / 학생부교과(일반전형1) / 의료서비스경영학과 |
| OfferParser.ExampleSingleSegment | streamlit_app.py:58-62 | "정시(서울과학기술대)" parses to university 정시, with the whole text as track label and no department |
| OfferParser.ExampleSeveralOffers | streamlit_app.py:50 | with two offers, only the first offer's parts appear |
| OfferParser.ExampleBlankFirstEntry | streamlit_app.py:47-56 | " , B/x/y" gives empty university and track label and no department |
| Classifier.ClassifyType | streamlit_app.py:79-90 | the category is one of 교과, 종합, 논술, 정시, 기타 |
| Classifier.ClassifyTypeFirstMatch | streamlit_app.py:82-89 | the category is keyword `i` exactly when the label contains it and none of the keywords before it |
| Classifier.ClassifyTypeOther | streamlit_app.py:80-90 | the category is 기타 exactly for a missing label or one containing no keyword |
| Classifier.ClassifyMajorGroup | streamlit_app.py:95-106 | the group is one of the four groups or 기타 |
| Classifier.ClassifyMajorGroupFirstMatch | streamlit_app.py:97-104 | the group is group `i` exactly when the department hits that group's list and no earlier list, in the order medical, engineering, humanities, arts |
| Classifier.ClassifyMajorGroupOther | streamlit_app.py:96-106 | the group is 기타 exactly for a missing department or one hitting no list |
| Classifier.NursingIsMedicalGroup | streamlit_app.py:95-148 | a nursing department is in the medical/health group |
| Classifier.MedicalGroupIsFlagged | streamlit_app.py:95-148 | a department in the medical/health group is flagged medical or nursing |
| Classifier.MissesEveryKeyword | streamlit_app.py:98-104 | a keyword list each of whose keywords has, at a given position, a character missing from the text is not hit |
| Classifier.DentalHygieneMisses | streamlit_app.py:98-104 | 치과위생과 hits none of the four keyword lists |
| Classifier.EngineeringBeforeHumanities | streamlit_app.py:99-102 | 경영공학과 hits the humanities list but is grouped under engineering, which is tried first |
| Classifier.DentalIsMedical | streamlit_app.py:133-143 | a department name containing 치과 is flagged medical |
| Classifier.DentalHygieneFlaggedButUngrouped | streamlit_app.py:95-143 | 치과위생과 is flagged medical but its group is 기타 |
| Classifier.DentalTechnologyFlaggedButEngineering | streamlit_app.py:95-143 | 치과기공학과 is flagged medical but grouped under engineering |
| Classifier.IsMedMajor | streamlit_app.py:140-143 | true exactly when the department is present and contains one of the seven medical keywords |
| Classifier.IsNursingMajor | streamlit_app.py:145-148 | true exactly when the department is present and contains 간호 |
| Classifier.InGroup | streamlit_app.py:136-138 | `isin`: true exactly when the university is present and equal to some listed name |
| Classifier.IsCapitalRegion | streamlit_app.py:136 | true exactly when the university equals one of the capital-region names |
| Classifier.IsNational | streamlit_app.py:137 | true exactly when the university equals one of the national names |
| Classifier.IsTeachersCollege | streamlit_app.py:138 | true exactly when the university equals one of the teachers' college names |
| Classifier.TeachersCollegeSyllable | streamlit_app.py:126-131 | every teachers' college name contains 육 |
| Classifier.LacksTeachersSyllable | streamlit_app.py:111-124 | no capital-region or national name contains 육 |
| Classifier.SeoulNationalInBoth | streamlit_app.py:111-137 | 서울대학교 is both capital-region and national |
| Classifier.TeachersCollegeExclusive | streamlit_app.py:111-138 | a teachers' college is neither capital-region nor national |
| Classifier.MembershipIsExact | streamlit_app.py:136-137 | membership is exact equality, so 서울대 is not on the capital-region or the national list |
| Loader.InferOutcome | streamlit_app.py:153-157 | the outcome is 합격 exactly when the offer is a string with a non-whitespace character, else 미상 |
| Loader.OutcomeAgreesWithParse | streamlit_app.py:153-157 | the inferred outcome is 합격 exactly when the parse yields a university |
| Loader.OfferOf | streamlit_app.py:70-76 | no university means nothing was parsed; a university is parsed exactly when the offer column exists and its cell is a non-blank string, and then a track label is parsed too |
| Loader.Derive | streamlit_app.py:70-157 | the row keeps its record and a given outcome; an inferred outcome is 합격 exactly when a university was parsed |
| Loader.DeriveConsistent | streamlit_app.py:70-157 | every derived row satisfies the row invariant: both categories lie in their ranges; no university means nothing was parsed and no university flag is set; a university has no `(`; no track label means 기타; no department means 기타 and no department flag; nursing implies the medical group, and the medical group implies a flag; a teachers' college is not capital-region or national; an inferred outcome is 합격 exactly when a university was parsed. The row keeps its record |
| Loader.BlankOfferRow | streamlit_app.py:70-157 | a blank or missing offer gives no parsed field, no flag, 기타 twice and, when inferred, the outcome 미상 |
| Loader.DeriveIgnoresLaterOffers | streamlit_app.py:70-157 | two offer cells that agree up to their first comma derive the same row, whatever the first entry is, blank ones included |
| Loader.DeriveUsesFirstEntryOnly | streamlit_app.py:70-157 | when the first entry is non-blank, the row of the whole cell is the row of that first entry alone |
| Loader.DeriveFromOffer | streamlit_app.py:70-157 | two offer cells with the same parse and the same inferred outcome derive the same row, apart from the record it keeps |
| Loader.DerivedUpToSnoc | streamlit_app.py:70-157 | deriving one more record extends the rows derived so far by that record's row |
| Loader.LoadTable | streamlit_app.py:70-157 | fails with `NoParsedColumns` exactly for an offer column with no records (the lookup at line 92), and with `MissingOfferColumn` exactly when both the offer and the outcome column are missing (line 155). Otherwise every row is derived from its record, in order, and the outcome column then exists |
| Loader.LoadedRowsConsistent | streamlit_app.py:70-157 | every row of a loaded table satisfies the row invariant and carries its own record |
| Filters.SelectCounts | streamlit_app.py:229-263 | `filtered[mask]` keeps every copy of a matching row and no copy of any other row |
| Filters.SelectSpec | streamlit_app.py:224-263 | a selection is a subsequence of the table. It holds exactly the table rows meeting every condition, each as often as it occurs in the table |
| Filters.SelectNothing | streamlit_app.py:225 | with no active condition the whole table is kept |
| Filters.SelectConcat | streamlit_app.py:227-263 | narrowing a selection by further conditions selects by all of them at once |
| Filters.SelectCommutes | streamlit_app.py:227-263 | the order of the conditions does not change the result |
| Filters.MoreConditionsNarrow | streamlit_app.py:227-263 | each further condition only narrows: the result is a subsequence of the previous one |
| Filters.HasFlagSnoc | streamlit_app.py:260-262 | or-ing one more flag column into the mask extends "some selected flag set" by that group |
| Filters.Matches | streamlit_app.py:229-262 | an empty keyword matches every row; a reversed year or grade range and an empty group list match none |
| Filters.ActiveCriteria | streamlit_app.py:227-263 | every condition the block applies is one some widget asks for |
| Filters.RequestedIsActive | streamlit_app.py:227-263 | every condition some widget asks for is applied by the block |
| Filters.SelectSameConditions | streamlit_app.py:227-263 | two lists with the same conditions select the same rows: only the set of conditions matters |
| Filters.FilterOrderIrrelevant | streamlit_app.py:227-263 | selecting by the requested conditions, listed in any order and with repeats, gives the table the block produces |
| Filters.Narrow | streamlit_app.py:229-255 | one step keeps exactly the rows meeting its condition, in order |
| Filters.FilterByGroups | streamlit_app.py:257-263 | the or-mask over the selected groups keeps exactly the rows with some selected flag set, in order |
| Filters.NarrowIf | streamlit_app.py:227-263 | one `if` of the filter block keeps the selection invariant: the rows are the selection by the conditions applied so far, extended by this condition exactly when it is active |
| Filters.GroupConditionActive | streamlit_app.py:257-263 | with at least one group chosen, the group condition is among the active conditions |
| Filters.ApplyFilters | streamlit_app.py:224-263 | the filtered table is the selection of the loaded table by the active conditions, in the order the block applies them |
| Filters.FilteredRows | streamlit_app.py:224-263 | the filtered table is a subsequence of the loaded one. A row is in it exactly when it is in the table and meets every active condition. Each such row is kept as often as it occurs in the table, so `len(filtered)` at line 268 counts every matching record. With groups selected, each surviving row has a selected flag set |
| Filters.GroupFilterExact | streamlit_app.py:257-263 | the group filter keeps exactly the rows with some selected group flag set, every copy of them |

## Left out

- Reading the CSV with the utf-8-sig/euc-kr fallback, and `@st.cache_data` (lines 12-18). These are file I/O and decoding. The records arrive as a parameter of `Loader.LoadTable`.
- The column-rename map (lines 21-33). It is a fixed renaming; the model uses the renamed columns directly.
- `pd.to_numeric(..., errors="coerce")` (lines 36-38). This is numeric parsing inside pandas. Numeric cells arrive already parsed, as `Option<int>`, with `None` for NaN.
- Floating-point grades. A grade is an integer on the same ordered scale, and the range comparisons are modelled with NaN comparing false.
- The sidebar widgets and their slider bounds (lines 160-222). These are UI and use float `round`. The user's choices arrive as a `Filters.Selection`.
- Filters.ApplyFilters: the middle-school condition is applied whether or not the column exists. The sidebar offers a school other than 전체 only when the column exists (lines 182-187). Without the column, pandas would raise a KeyError, which the model does not produce.
- Filters.Narrow: the keyword is searched as a plain substring. pandas' `str.contains` treats it as a regular expression by default (line 255), so keywords with regex metacharacters behave differently there.
- Filters.FilterByGroups: the `if g in filtered.columns` guard (line 261) is always true after loading, because every group column exists, so it is not modelled. The multiselect's column names are modelled as the enumeration `Filters.Group`.
- The pandas `apply(pd.Series)`/`concat` mechanics and the column-by-column assignments (lines 70-157). They are modelled as one derivation per record, `Loader.Derive`, which gives every derived column of that record at once.
- Loader.Record: the name, middle-school grade and rank columns are not carried, because nothing modelled reads them.
- Charts, tabs, group-by counts and means, and the footer (lines 266-470). These are presentation and float arithmetic.
- The dashboard's title, caption and page configuration (lines 1-8). These are UI only.
