# Contract non-renewal pipeline: a verified model of its tabular core

The application predicts which long-term vehicle lease contracts will not be
renewed. Before and after the machine-learning calls, it runs a chain of table
transformations over the contract table. This project models those
transformations in Dafny and proves what they do:

- `nettoyer_donnees` cleans the raw table. It drops exact duplicate rows and
  rows that are entirely empty, strips the column names, and strips the text of
  `Type Commande` and `Nouveau Client` (module `Preprocessing`).
- `filtrer_contrats_eligibles` keeps only existing customers (`Nouveau Client`
  is `NON` in any case and spacing) whose order is not a new order
  (module `Preprocessing`).
- `ajouter_variable_cible` adds the label `Non_renouvellement`: 0 for a
  renewal, 1 for anything else (module `Preprocessing`).
- `preparer_features` builds the model table (module `Features`). It fills the
  missing sellers. It computes the contract age in calendar months and keeps
  ages from 1 to 120. It computes the return gap in days, with return dates
  before 2000 cleared and missing ones replaced by the contract end. It encodes
  the three service columns as 1/0 for `OUI`/`NON`. It projects onto the fixed
  list of final columns.
- `predire_clients_a_risque` scores the active contracts (module `Predict`). It
  reconciles their columns with the classifier's feature list: the identifier,
  the target and the activity flag are dropped, absent features are zero-filled,
  and the columns are reordered. It returns the contracts predicted not to
  renew, and the 50 with the highest score.
- `hash_column` and `anonymiser_dataframe` replace each listed column cell by
  cell with the SHA-256 digest of the cell's string form
  (module `Anonymisation`).

A table is a `Frames.Frame`: an ordered list of distinct column names and a
sequence of rows. Each row maps every column name to a `Value`: text, an
integer, a float, an already parsed calendar date, or a missing value. The
pandas operations the code uses are modelled in `Frames`:

- column assignment, where an existing column keeps its place and a new one is
  appended;
- boolean row selection, which keeps order;
- column projection, renaming and `astype(str)`.

`Seqs` holds the order-preserving filter. Its specification is `FilteredBy`:
the k-th kept element is the element at the k-th true position of the mask.
`Text` holds `strip`, `upper`, `lower` and the decimal rendering of numbers.
`Calendar` holds the day numbers that give pandas' whole-day date difference.

The trained classifier appears as two functions of a feature vector, `predict`
and `proba`. The SHA-256 hex digest of a text's UTF-8 bytes appears as one
function, `sha`. All three are parameters of the operations that call them.

Where the code and the written specification of the system disagree, the
model follows the code:

- The eligibility filter indexes `Nouveau Client` and `Type Commande`
  unconditionally. So it fails on a table that lacks either column, rather than
  skipping that condition.
- The seller fill value is `Inconnu`, not `Unknown`.
- Duplicates are dropped before the text columns are stripped. So two raw rows
  that differ only by surrounding blanks both survive and are equal once
  cleaned: the cleaned table may hold duplicates
  (`Preprocessing.CleanMayKeepDuplicates`).
- The ranking sort is pandas' default unstable sort. So the order among equal
  scores is not fixed, and the contract of the top-50 ranking does not fix it
  either.

## Model

| member | source | states |
|---|---|---|
| Frames.SetColumn | src/predict.py:32 | `df[c] = values`: the frame stays well formed; an existing column keeps its position and a new one is appended; every row gets its cell in `c` from `values` and keeps its other cells |
| Frames.SelectRows | src/predict.py:18 | `df[mask]` keeps the columns and holds exactly the rows whose mask entry is true, in their original order |
| Frames.Project | src/features.py:61 | `df[cols]` has exactly the listed columns, in the listed order, and every row keeps its cells in those columns |
| Frames.MapColumn | src/features.py:16 | `df[c] = df[c].<op>`: the frame stays well formed with the same columns and rows, and each row's cell in `c` becomes the operation applied to its old cell while its other cells are kept |
| Frames.RenameColumns | src/preprocessing.py:29 | renaming every column keeps each cell, now under the new name of its column |
| Text.StripCharacterised | src/preprocessing.py:29 | `strip()` returns the text between the leading and the trailing whitespace; the result neither starts nor ends with whitespace |
| Text.StripIdempotent | src/preprocessing.py:55 | stripping an already stripped text changes nothing |
| Text.StripPadded | src/preprocessing.py:34 | whitespace added around a text does not change its stripped form |
| Text.StripLower | src/preprocessing.py:58 | stripping and lower-casing commute |
| Text.UpperEqualsIff | src/features.py:44 | `upper()` of a text equals an upper-case word exactly when the two agree letter by letter, regardless of case |
| Text.LowerEqualsIff | src/preprocessing.py:63 | `lower()` of a text equals a text with no capitals exactly when they agree character by character, regardless of case |
| Text.NatToStringRoundTrip | src/anonymisation.py:8 | the decimal rendering of a number reads back as that number |
| Text.IntToStringInjective | src/anonymisation.py:8 | different integers have different string forms, so `astype(str)` does not merge them before hashing |
| Calendar.NextDayNumber | src/features.py:36-38 | the day after a valid date has the next day number: day numbers count days without gaps |
| Calendar.DayNumberOrder | src/features.py:36-38 | one date is before another exactly when its day number is smaller, and two dates are equal exactly when their numbers are |
| Preprocessing.DropDuplicates | src/preprocessing.py:23 | `drop_duplicates()` keeps the first occurrence of each row, in order; the result has no duplicates, and every input row appears in it |
| Preprocessing.DropAllMissing | src/preprocessing.py:26 | `dropna(how="all")` keeps, in order, exactly the rows with at least one value |
| Preprocessing.CleanRowCells | src/preprocessing.py:29-34 | in a cleaned row, each raw column's cell sits under the stripped name; it is stripped text when that name is `Type Commande` or `Nouveau Client`, and unchanged otherwise |
| Preprocessing.StripTextColumns | src/preprocessing.py:32-34 | the loop replaces the cells of each present text column with their stripped text, and leaves the columns and every other cell unchanged |
| Preprocessing.Clean | src/preprocessing.py:12-36 | the cleaned columns are the stripped names, in order; the rows are the cleaned form of exactly the raw rows `CleanKeep` keeps, in input order |
| Preprocessing.CleanSelection | src/preprocessing.py:23-34 | the two row selections followed by renaming and stripping amount to one selection by `CleanKeep` of the cleaned rows |
| Preprocessing.CleanMayKeepDuplicates | src/preprocessing.py:22-34 | a row and its copy with a trailing blank in a text column both survive cleaning and come out equal |
| Preprocessing.EligibleNormalised | src/preprocessing.py:54-64 | the filter's mask on the normalised columns holds exactly for the raw rows of existing customers whose order is not a new order |
| Preprocessing.NormaliseFilterColumns | src/preprocessing.py:54-58 | the frame keeps its columns and rows; each row becomes its normalised form, with `Nouveau Client` stripped and upper-cased and `Type Commande` stripped and lower-cased where present |
| Preprocessing.FilterEligible | src/preprocessing.py:44-66 | fails with the missing column, `Nouveau Client` checked first, when either filter column is absent; otherwise keeps the columns and holds, in order, the normalised form of exactly the eligible rows |
| Preprocessing.FilterKeepsOnlyEligible | src/preprocessing.py:61-64 | every row the filter keeps reads `NON` as customer status and something other than `nouvelle commande` as order type |
| Preprocessing.LabelOf | src/preprocessing.py:83-86 | the label is 0 or 1, and it is 0 exactly when the lower-cased, stripped order type is `renouvellement` |
| Preprocessing.AddTarget | src/preprocessing.py:74-90 | fails exactly when `Type Commande` is absent; otherwise adds or overwrites the label column in every row and changes nothing else |
| Preprocessing.LabelAfterNormalising | src/preprocessing.py:83-85 | the label of an order type the filter has already normalised is the label of the raw order type |
| Preprocessing.FilterThenLabel | src/preprocessing.py:44-90 | after the filter and the labelling, each eligible raw row reappears at its rank among the eligible rows, with the label its raw order type gives |
| Features.ToDate | src/features.py:23-24 | a parsed cell is a valid calendar date or missing, and a valid date is kept as it is |
| Features.FillUnknown | src/features.py:16 | the seller fill leaves no cell missing and leaves every present cell alone |
| Features.MonthsBetween | src/features.py:26-29 | the age is a whole number exactly when both dates are present, and missing otherwise |
| Features.InAgeRangeNumber | src/features.py:30 | `between(1, 120)` keeps a cell exactly when its age is a whole number from 1 to 120, whether the column stores it as an integer or a float |
| Features.DropOldReturn | src/features.py:34 | the masked write makes a return date missing exactly when it is a date before 2000 or already missing, and otherwise leaves it unchanged |
| Features.DaysBetween | src/features.py:36-38 | the date difference is a whole number of days exactly when both dates are valid, and missing otherwise |
| Features.FillZero | src/features.py:39 | the gap fill leaves no cell missing and leaves every present cell alone |
| Features.Bin | src/features.py:44 | the service encoding is 1 exactly for text that upper-cases to `OUI`, 0 exactly for `NON`, and missing for anything else |
| Features.OutColumns | src/features.py:47-61 | the result's columns are distinct; they are exactly the fixed final columns that exist once the age, the gap and the present services' `_bin` columns are added |
| Features.FilterByAge | src/features.py:15-30 | fails on a missing order date, then on a missing end date; otherwise yields the age column added and exactly the rows aged 1 to 120 months, in order |
| Features.AddAge | src/features.py:26-29 | every row gets its age in months, stored as an integer when no row lacks one and as a float otherwise |
| Features.AddGap | src/features.py:33-39 | every row gets its return date cleared before 2000 and filled from the contract end, and the day gap between the two, with missing gaps filled with 0 |
| Features.EncodeServices | src/features.py:42-44 | the loop adds a `_bin` column for each present service, or fails on the first service column that holds no text |
| Features.PrepareFeatures | src/features.py:3-63 | fails, in this order, on a missing order, end or return date column, or on the first service column pandas refuses as text; otherwise yields the final columns and, in input order, the feature row of exactly the contracts aged 1 to 120 months |
| Features.ResultAgesInRange | src/features.py:26-30 | every row of the result has an age of 1 to 120 months |
| Features.ResultGapsPresent | src/features.py:33-39 | every row of the result has a whole number of days as its gap: the zero fill never finds a missing value |
| Features.GapZeroWithoutReturn | src/features.py:34-39 | a retained contract whose return date is missing, unreadable or before 2000 has a gap of 0 days |
| Features.GapSign | src/features.py:34-38 | for a return date from 2000 on, the gap is negative exactly when the return came before the contract end, and 0 exactly when both fall on the same day |
| Features.BinValues | src/features.py:42-44 | a present service encodes as 1 exactly for `oui` in any case and as 0 exactly for `non`, else missing; it is stored as an integer exactly when no retained row is missing |
| Features.OutColumnsSelection | src/features.py:47-61 | the seller and the three date columns never reach the result; the age and the gap always do |
| Features.OutColumnsOrder | src/features.py:61 | the result's columns come in the order of the fixed final list |
| Features.AgePositiveIff | src/features.py:26-30 | the age ignores days: it is at least 1 exactly when the end falls in a later calendar month than the order |
| Features.AgeExamples | src/features.py:26-29 | 31 January to 1 February is one month; 15 January 2020 to 15 July 2021 is 18 months |
| Predict.Remaining | src/predict.py:27 | `drop(columns=..., errors="ignore")` keeps exactly the columns not listed, in order, present or not |
| Predict.DropColumns | src/predict.py:27 | `drop(columns=..., errors="ignore")` keeps exactly the columns not listed, in their order, present or not, and each row keeps its cells in those columns |
| Predict.Reconcile | src/predict.py:30-35 | the matrix has exactly the expected features, in order; a present feature keeps its values and an absent one is 0 in every row |
| Predict.FeatureMatrix | src/predict.py:27-35 | after dropping and reconciliation, each row of the matrix reads as that contract's feature vector |
| Predict.TrainedFeatures | src/training_xgboost.py:15-40 | the recorded feature names are every training column but the identifier and the target, in order |
| Predict.FlagZeroFilled | src/predict.py:27-32 | the activity flag is a trained feature, yet every active row shows the classifier 0 in its place |
| Predict.InsertByScore | src/predict.py:43 | inserting a row into rows sorted by decreasing score keeps them sorted and adds exactly that row |
| Predict.SortByScore | src/predict.py:43 | the sort yields a permutation of the rows by non-increasing score |
| Predict.TopByScoreIsTop | src/predict.py:43 | the ranking has min(50, n) rows, all taken from its input, by non-increasing score; no row left out scores above a row kept |
| Predict.AddScores | src/predict.py:38-39 | each row gains its predicted class and its score, computed from its own vector, and keeps all its other cells |
| Predict.AtRiskRows | src/predict.py:18-42 | selecting the active rows, scoring them, then selecting those predicted 1 is one selection by `AtRiskMask` of all rows scored |
| Predict.PredictAtRisk | src/predict.py:5-45 | fails exactly when `flag_actif` is absent; otherwise returns, in input order, the scored active contracts predicted not to renew, and their top 50 by score with the same columns |
| Anonymisation.HashColumn | src/anonymisation.py:4-8 | every cell becomes the digest of its own string form, and the length is kept |
| Anonymisation.HashTimesByForm | src/anonymisation.py:4-8 | hashed once or more, a cell depends only on its string form |
| Anonymisation.AnonymiseStep | src/anonymisation.py:22-24 | one turn of the loop hashes the listed column when present and skips it otherwise |
| Anonymisation.Anonymise | src/anonymisation.py:10-25 | the columns and the number of rows are kept; each cell is hashed once for each time its column is listed, so an unlisted one stays as it was |
| Anonymisation.ListedOnce | src/anonymisation.py:22-24 | a column listed once has every cell replaced by the digest of its string form |
| Anonymisation.UnlistedUnchanged | src/anonymisation.py:22-24 | a column not listed keeps every cell |
| Anonymisation.SameFormSameHash | src/anonymisation.py:4-8 | two cells of a listed column with the same string form end up equal |

## Left out

- Reading and writing Excel files (`charger_donnees_anonymisees`), the classifier's loading, training and internals, and SHA-256 itself. They are I/O or foreign code. The classifier and the digest are parameters.
- Date parsing with `dayfirst` and `errors="coerce"`. Date cells are modelled as already parsed. Any other cell in a date column counts as unparseable and becomes missing.
- pandas' `Timestamp` bounds, for years below 1677 or above 2262. Dates have unbounded years here.
- The median fill of `Montant mise à la route` (src/features.py:18-20). It writes a column that the final projection drops, so it has no effect on the result. It is floating point, and the error pandas raises on a median of text is not modelled.
- Features.AddGap: writes lines 33-35 as one column assignment. None of the intermediate states is visible.
- Features.PrepareFeatures: judges whether pandas accepts `.str` on a service column from the raw input column. That column must be a numeric or date column with at least one value. pandas also refuses an all-missing column, a text column whose surviving cells are all numbers, and one whose surviving cells are all dates; the model accepts all three.
- Preprocessing.Clean: requires the stripped column names to be distinct. A row is a map, so it cannot hold two columns with the same name, though pandas allows that.
- Text.Upper: maps ASCII letters only. Python maps every Unicode letter. The same holds for `Text.Lower`.
- Frames.ToStr: renders a float with up to six decimals. Python's shortest round-trip rendering is not modelled.
- Frames.ToStr: renders every missing cell as `nan`. pandas renders a missing date (NaT) as `NaT` and a `None` in a text column as `None`. So the model hashes a blank date cell as the digest of `nan`, and it does not tell a NaN from a `None` in one text column.
- Predict.PredictAtRisk: scores each row on its own. The classifier's batch call and its errors on non-numeric features are not modelled.
- Probability bounds on the score are not claimed. They depend on the classifier, not on this code.
- Statistical tests, charts, model comparison and the interactive application shell are outside this model.
