# FocusMania: prediction policy and data cleaning, in Dafny

FocusMania logs daily tasks (date, task, category, priority, mood, minutes
spent, whether the task was completed). It cleans that log, trains a
classifier on it and offers a "Prediction" page. This project models the two
deterministic parts of the system and proves properties of them.

- **The Prediction page** (`dashboard/app.py`, module `Prediction`). It covers
  the fixed priority and mood encodings and the category encoding. Categories
  are numbered in order of first appearance in the history. It also covers the
  four-entry candidate row given to the classifier, the additive risk score and
  the three-way recommendation. The trained classifier is an opaque function
  parameter. Its label decides only the "will complete" message. It never
  feeds into the risk or the recommendation. The risk is counted in integer
  hundredths (0.4 is 40), so `round(risk, 2)` is the identity there.
- **The cleaning pass** (`scripts/data_cleaning.py`, module `Cleaning`). A
  table is a sequence of seven-cell rows; a cell is `Option<Value>`, where
  `None` is a missing value. `CleanData` replaces the frame step by step:
  - dedup, keeping first occurrences;
  - date coercion, through a parser parameter;
  - a loop that strips and title-cases Task, Category, Priority and Mood;
  - the Yes/No mapping of Completed;
  - a forward-fill loop.

  The three steps that work row by row or column by column are loops: dedup,
  the four-column loop and forward fill. Each is proved equal to a
  specification function (`Unique`, `MapColumns`, `FFill`). The date step and
  the Yes/No step are single functions (`CoerceDate`, `YesNo`). `Clean` is
  the whole pass as one function.
- Shared helpers: `Sequences` holds `Unique`, which models pandas' `unique()`
  and `drop_duplicates()`. `Text` holds Python's `str.strip()`, `str.title()`
  and `str()` of an integer, restricted to ASCII.

Behaviours worth knowing:

- Looking up a category, priority or mood that has no code raises `KeyError`
  at `dashboard/app.py:152-154`, which stops the page before any prediction,
  risk score or recommendation is shown. `Predict` returns `None` in exactly that case.
- The cleaning pass follows pandas 2.x, where `astype(str)` on an object
  column turns a missing text cell into the string "nan". So after
  cleaning the four text columns are never missing. Forward fill therefore
  never fills them; a missing category becomes "Nan" (`MissingTextBecomesNan`).
- `Completed` is mapped before any case folding, so "yes" becomes missing.
  Forward fill then copies the row above (`LowerCaseYesTakesRowAbove`).
- Time spent never changes the recommendation: 20 hundredths cannot cross
  either threshold (`RecommendationByFactors`).

## Model

| member | source | states |
|---|---|---|
| Prediction.PriorityMap | dashboard/app.py:139-145 | exactly the three select-box priorities have codes; each code is the choice's position (Low 0, Medium 1, High 2); distinct priorities get distinct codes |
| Prediction.MoodMap | dashboard/app.py:142-146 | exactly the four select-box moods have codes; each code is the choice's position; distinct moods get distinct codes |
| Prediction.Enumerate | dashboard/app.py:147 | the dict comprehension over `enumerate` has exactly the enumerated values as keys |
| Prediction.EnumerateDistinct | dashboard/app.py:147 | over distinct values, each value is mapped to its own index |
| Prediction.CategoryMap | dashboard/app.py:147 | the category map has a code for exactly the categories in the history |
| Prediction.CategoryMapCodes | dashboard/app.py:147 | the category map is defined on exactly the history's categories, is injective, uses exactly the codes 0..n-1, and gives each category its rank in first-appearance order |
| Prediction.CategoryCodesFollowFirstAppearance | dashboard/app.py:147 | a category that first appears earlier in the history gets the smaller code |
| Prediction.CategoryMapExample | dashboard/app.py:147 | the history Work, Study, Work encodes Work as 0 and Study as 1; an unseen category has no code |
| Prediction.SelectableInputsAreEncoded | dashboard/app.py:139-154 | every category, priority and mood the select boxes offer has a code, so the three lookups cannot fail |
| Prediction.CandidateVector | dashboard/app.py:150-155 | the candidate row has one entry per training column, and entry i holds the value named by training column i (time, category code, priority code, mood code) |
| Prediction.Risk | dashboard/app.py:160-168 | the risk is 40·[High] + 40·[Tired or Stressed] + 20·[time > 120] hundredths and always one of 0, 20, …, 100 |
| Prediction.LowEnergy | dashboard/app.py:163 | the moods that add to the risk are exactly the selectable moods with the two highest codes (Tired, Stressed) |
| Prediction.RiskScore | dashboard/app.py:160-168 | the accumulator built by the three conditional increments equals `Risk` |
| Prediction.RiskTimeThreshold | dashboard/app.py:165-166 | 120 minutes adds nothing and 121 adds 20; every time up to 120 scores like 120; more time never lowers the risk |
| Prediction.SliderTimeTerm | dashboard/app.py:138-166 | over the slider's 10..180 range the risk is the risk at the default 60 minutes, plus 20 past 120; 180 reaches that term and 10 does not |
| Prediction.Recommend | dashboard/app.py:177-182 | exactly one recommendation: break up at risk ≥ 70, change environment for 40 ≤ risk < 70, safe below 40 |
| Prediction.Message | dashboard/app.py:177-182 | every recommendation text starts with the same "Recommendation:" heading and has text after it |
| Prediction.MessagesDistinct | dashboard/app.py:177-182 | each recommendation has its own message text |
| Prediction.RecommendationByFactors | dashboard/app.py:160-182 | break up exactly when priority is High and mood is Tired or Stressed; safe exactly when neither holds; time never changes the advice |
| Prediction.Predict | dashboard/app.py:149-182 | fails exactly when a lookup key is missing; otherwise the label is the classifier's verdict on the candidate row, and the risk and recommendation are `Risk` and `Recommend` of priority, mood and time alone, whatever the category or classifier |
| Sequences.Unique | scripts/data_cleaning.py:9 | keeping first occurrences never lengthens the sequence |
| Sequences.UniqueElements | scripts/data_cleaning.py:9 | after dedup every input value is still present, nothing new appears, and no two elements are equal |
| Sequences.UniqueOfDistinct | scripts/data_cleaning.py:9 | an input without duplicates is returned unchanged |
| Sequences.UniqueKeepsFirstAppearanceOrder | scripts/data_cleaning.py:9 | kept elements are ordered by their first appearance in the input |
| Sequences.IndexOf | scripts/data_cleaning.py:9 | the index returned holds the value, and the value does not occur before it |
| Cleaning.DropDuplicates | scripts/data_cleaning.py:9 | the loop that keeps rows not seen before returns exactly `Unique` of the rows |
| Cleaning.SetColumn | scripts/data_cleaning.py:14 | assigning a column rewrites every cell of that column with the step and leaves every other column unchanged |
| Cleaning.AfterDedupDate | scripts/data_cleaning.py:11-18 | with the coercion step applied cell by cell, a date it reads is kept, an unreadable one takes the date of the row above, and a date is missing exactly when no row at or above has a readable one |
| Cleaning.CleanDate | scripts/data_cleaning.py:11-18 | after the pass, with the parser applied to each date on its own, a readable date is the parsed date, a missing or unreadable one is copied from the row above, and it is missing exactly when every date at or above is missing or unreadable |
| Cleaning.AsStr | scripts/data_cleaning.py:14 | `astype(str)` as in pandas 2.x: a missing cell becomes "nan", text is kept, and a number becomes the decimal text `str()` gives, which reads back as the same number |
| Cleaning.NumberCellBecomesDecimalText | scripts/data_cleaning.py:14 | a number in a text column comes out as its decimal text, unchanged by strip and title, and still denotes the same number |
| Cleaning.TextCellsNormaliseAlike | scripts/data_cleaning.py:14 | text cells that differ only in surrounding whitespace and letter case normalise to the same cell |
| Cleaning.NormalizeCell | scripts/data_cleaning.py:14 | a text cell after `astype(str).str.strip().str.title()` is always present text, even if it was missing |
| Cleaning.NormalizeCellIdempotent | scripts/data_cleaning.py:14 | normalised text has no surrounding whitespace, and normalising again changes nothing |
| Cleaning.MapColumns | scripts/data_cleaning.py:13-14 | the loop over the text columns keeps the row count; what it does to each cell is `MapColumnsAt` |
| Cleaning.MapColumnsAt | scripts/data_cleaning.py:13-14 | after the loop over distinct columns, a listed column's cell has the step applied once and any other cell is unchanged |
| Cleaning.YesNo | scripts/data_cleaning.py:16 | Completed becomes 1 exactly for "Yes", 0 exactly for "No", and missing for anything else |
| Cleaning.FFill | scripts/data_cleaning.py:18 | forward fill keeps the row count |
| Cleaning.LastPresentSameColumn | scripts/data_cleaning.py:18 | where forward fill takes a cell from depends only on the cells of that column |
| Cleaning.LastPresent | scripts/data_cleaning.py:18 | the index found is the nearest row at or above with a present cell in that column, or -1 if there is none |
| Cleaning.FFillTakesNearestEarlier | scripts/data_cleaning.py:18 | each filled cell equals the nearest present cell at or above it in its column, and is missing when there is none |
| Cleaning.FFillProperties | scripts/data_cleaning.py:18 | forward fill keeps the row count and every present cell; a cell stays missing exactly when every cell above it is missing |
| Cleaning.FFillRepeatedRow | scripts/data_cleaning.py:18 | a row equal to the row above is filled exactly like it |
| Cleaning.ForwardFill | scripts/data_cleaning.py:18 | the loop carrying the last present value of each column returns exactly `FFill` |
| Cleaning.AfterDedup | scripts/data_cleaning.py:11-18 | the steps after dedup never add or remove rows; what they do to each column is `AfterDedupDate` (Date), `AfterDedupText` (the four text columns), `AfterDedupTime` (Time_Spent_Min) and `AfterDedupCompleted` (Completed) |
| Cleaning.Clean | scripts/data_cleaning.py:6-18 | the whole pass leaves one row per distinct input row |
| Cleaning.CleanData | scripts/data_cleaning.py:6-18 | the step-by-step pass (dedup, date coercion, the four-column loop, Yes/No mapping, forward fill) equals `Clean` |
| Cleaning.CleanRowCount | scripts/data_cleaning.py:9-18 | the output has one row per distinct input row, so no more rows than the input; an input without duplicates keeps its row count |
| Cleaning.AfterDedupTime | scripts/data_cleaning.py:18 | time spent is touched only by forward fill: a present time is kept, and a missing one becomes the nearest present time above it, or stays missing |
| Cleaning.AfterDedupText | scripts/data_cleaning.py:13-18 | a text column is never filled: each row keeps its own normalised cell |
| Cleaning.AfterDedupCompleted | scripts/data_cleaning.py:16-18 | Completed ends as 1, 0 or missing; missing exactly when no row at or above was "Yes"/"No"; a Yes/No row keeps its own value; any other row copies the row above |
| Cleaning.AfterDedupMergesRows | scripts/data_cleaning.py:13-18 | adjacent rows that agree outside the text columns, and whose text normalises alike, come out identical |
| Cleaning.CleanTime | scripts/data_cleaning.py:9-18 | after the pass, each row's time spent is the nearest present time at or above it among the deduplicated rows, or missing when there is none |
| Cleaning.CleanTextColumns | scripts/data_cleaning.py:13-18 | after the pass, each text cell is the normalised text of the deduplicated row's own cell, and is present |
| Cleaning.MissingTextBecomesNan | scripts/data_cleaning.py:13-14 | a missing Task, Category, Priority or Mood cell comes out as the text "Nan" |
| Cleaning.CleanCompleted | scripts/data_cleaning.py:16-18 | after the pass Completed is 1, 0 or missing, and missing exactly when no deduplicated row at or above held "Yes" or "No" |
| Cleaning.NearDuplicatesSurvive | scripts/data_cleaning.py:9-14 | dedup runs before normalisation: two different rows that agree outside the text columns and whose text cells normalise alike (differing only in surrounding spaces or letter case) both survive, and come out identical |
| Cleaning.LowerCaseYesTakesRowAbove | scripts/data_cleaning.py:14-18 | in any two rows, a Completed "yes" under a "No" becomes missing, then is filled with 0 from the row above |
| Text.ContentStart | scripts/data_cleaning.py:14 | everything before the returned index is whitespace, and the character at it is not |
| Text.ContentEnd | scripts/data_cleaning.py:14 | everything from the returned index on is whitespace, and the character before it is not |
| Text.Strip | scripts/data_cleaning.py:14 | the stripped text is a slice of the input with only whitespace before and after it, and it has no whitespace at either end |
| Text.StripBounds | scripts/data_cleaning.py:14 | names the two bounds of that slice: whitespace outside them, none just inside them |
| Text.StripUnique | scripts/data_cleaning.py:14 | any slice with only whitespace outside it and none at its ends is the stripped text, so the contract of `Strip` determines it |
| Text.StripPadded | scripts/data_cleaning.py:14 | whitespace added around a text is stripped away again |
| Text.StripTrimmed | scripts/data_cleaning.py:14 | text with no surrounding whitespace is left unchanged by stripping |
| Text.TitleFrom | scripts/data_cleaning.py:14 | title-casing keeps the length; which letters it upper-cases is `TitleFromAt` |
| Text.TitleFromAt | scripts/data_cleaning.py:14 | each letter is upper-cased when it starts the text or follows a character that is not a letter, and lower-cased otherwise; other characters are kept |
| Text.TitleFromIgnoresCase | scripts/data_cleaning.py:14 | texts equal up to letter case title-case to the same text |
| Text.TitleFromUncased | scripts/data_cleaning.py:14 | text without letters is unchanged by title-casing |
| Text.Title | scripts/data_cleaning.py:14 | `str.title()` keeps the length |
| Text.TitleFromShape | scripts/data_cleaning.py:14 | title-casing keeps whitespace and letters at the same positions |
| Text.TitleFromIdempotent | scripts/data_cleaning.py:14 | title-casing twice equals title-casing once |
| Text.Normalize | scripts/data_cleaning.py:14 | strip-then-title never lengthens the text |
| Text.StripIgnoresCase | scripts/data_cleaning.py:14 | texts equal up to letter case strip to texts equal up to letter case |
| Text.NormalizeIgnoresSpacingAndCase | scripts/data_cleaning.py:14 | texts that differ only in surrounding whitespace and letter case normalise to the same text |
| Text.NormalizeTrimmed | scripts/data_cleaning.py:14 | strip-then-title leaves no whitespace at either end |
| Text.NormalizeIdempotent | scripts/data_cleaning.py:14 | strip-then-title applied twice equals applying it once |
| Text.NormalizeMergesSpacingAndCase | scripts/data_cleaning.py:14 | " study" and "Study" both normalise to "Study" |
| Text.NatToString | scripts/data_cleaning.py:14 | the decimal text of a natural number is non-empty digits, without a leading zero, that read back as the number |
| Text.IntToString | scripts/data_cleaning.py:14 | `str()` of an integer: a minus sign exactly for negative numbers, then decimal digits without a leading zero that read back as the number; no whitespace and no letters |
| Text.NormalizeIntText | scripts/data_cleaning.py:14 | strip-then-title leaves the text of an integer unchanged |

## Left out

- Streamlit page setup, navigation, header, metrics, footer and all charts are
  presentation only and are not modelled (dashboard/app.py:11-117, 184-186).
  The same goes for the EDA script and the two training scripts.
- Training and inference inside the classifier are sklearn internals. So are
  the feature importances and `LabelEncoder.fit_transform`. The trained model
  is an opaque parameter of `Predict`. Training encodes with `LabelEncoder`,
  while the page encodes candidates with its own maps. No claim is made that
  the two encodings agree.
- `Predict` models one press of the "Predict Completion" button. The button
  guard and the `st.metric` display are UI. The slider's range appears only in
  `SliderTimeTerm`. `Predict` itself accepts any whole number of minutes.
- Float arithmetic of the risk score is not modelled. Hundredths are used
  instead. In floats 0.4 + 0.2 is 0.6000000000000001, which rounds to 0.6,
  and every float total lies in the same band as its hundredths value.
- CSV reading and writing and the final `print` are I/O. `pd.to_datetime`
  date parsing is an opaque parser parameter of `Clean` and `CleanData`.
- Numbers are whole numbers. A float column is not modelled, and neither is
  the "30.0" spelling that `astype(str)` gives a float cell.
- Text handling covers ASCII only: whitespace and letters are the ASCII ones.
  Python's Unicode case mapping and non-ASCII whitespace are not modelled.
- Pandas 3's default string dtype, under which `astype(str)` keeps a missing
  cell missing, is not modelled. The pass follows pandas 2.x object columns.
- CoerceDate: the date parser is applied to each cell on its own. `pd.to_datetime`
  without a `format` infers one format from the first non-missing date and, with
  `errors="coerce"`, turns every date in another format into NaT, so whether a
  cell reads depends on the first date in the column. That column-wide format
  inference is not modelled, and `CleanDate`'s notion of a readable date is the
  per-cell one.
