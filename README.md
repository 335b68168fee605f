# Candidate–job matching: encoder and structural scorer in Dafny

This project models the two deterministic parts of a candidate–job
recommendation system and proves their properties.

**The feature encoder** (`data_preprocessing.py`, class `dataPreprocessor`)
turns candidate records and a free-text job description into vectors with
one shared layout:
- `clean_split` cuts a field value (missing, a comma-separated string, or a
  list) into clean lowercase tokens.
- `fit_transform` does three things:
  - it learns one sorted, duplicate-free vocabulary per categorical column
    (what `MultiLabelBinarizer.classes_` holds);
  - it encodes each record as one multi-hot block per column;
  - it min-max scales the numeric columns (`MinMaxScaler`).
- `transform` applies the frozen state again.
- `process_job_description` projects a job description into that layout:
  - a vocabulary word counts as present when it is a substring of the
    lowercased text;
  - every numeric column gets the raw value 0.5, which the fitted scaler
    then rescales.

**The structural scorer** (`multi_criteria_structural_score.py`) cleans and
tokenizes criteria fields. It compares a candidate with a parsed job
description by Jaccard similarity per field and by equality of domain. It
weights the four sub-scores 0.3/0.2/0.1/0.2 and ranks candidates by the
weighted score, highest first.

Files:
- `wrappers.dfy`: `Option` and `Result`.
- `strings.dfy` (module `Strings`): Python's ASCII `str.lower`, `str.strip`,
  `str.split` and `str.join`, and Python's string order.
- `encoding.dfy` (module `Encoding`): the pure parts of the encoder, as
  functions and lemmas:
  - `clean_split`;
  - the vocabulary;
  - multi-hot blocks;
  - min-max bounds and scaling;
  - the row layout;
  - the job-description row.
- `preprocessor.dfy` (module `Preprocessing`): the stateful part.
  - A DataFrame is the class `Table`. Its `columns` map is overwritten in
    place, as `df[col] = ...` does.
  - `dataPreprocessor` is the class `Preprocessor`. Its fields are:
    - `vocab`, standing for `mlb_dict`;
    - `scaler`, which is `None` until a successful fit.
  - The per-column loops of `fit_transform` and `transform` are methods
    with loop invariants.
  - Each method is proved against the function `Encoded`, which gives
    the whole encoded frame from the input table.
- `structural.dfy` (module `StructuralScore`): the scorer.
  - The scoring steps are functions.
  - The results loop is a method proved against the function `Results`.
  - The pandas sort is an insertion sort proved sorted and a permutation.

Errors the source raises are `Err` values:
- `KeyError` on a missing column or an unfitted column;
- `NotFittedError` from an unfitted scaler;
- sklearn's `ValueError` on non-numeric or empty input;
- `KeyError` on a candidate row without `skills`, `candidate_id` or `name`.

Three library behaviours shape the model:
- **Constant numeric column.** sklearn's `MinMaxScaler` replaces a zero
  range by 1, so `Scale` gives `x - min`. That is 0 on the fit corpus, but
  not for other values.
- **Tied scores.** The default sort of `sort_values` is not stable, so no
  order among equal final scores is claimed.
- **Empty corpus.** `pd.DataFrame([])` has no columns, so sorting it by
  `final_score` raises `KeyError`; `Rank` returns that error.

## Model

| member | source | states |
|---|---|---|
| Strings.LowerChar | data_preprocessing.py:23-25 | `str.lower` on one character: never uppercase, keeps whitespace and commas as they are |
| Strings.Lower | data_preprocessing.py:80 | helper: lowercasing keeps the length and lowercases each character in place |
| Strings.LowerOfLowercase | data_preprocessing.py:23-25 | text with no uppercase letter is its own lowercase |
| Strings.Strip | data_preprocessing.py:23-25 | the result has no surrounding whitespace and uses only characters of the input; it is empty exactly when the input is all whitespace; text already bare is unchanged; with `StripInfix`, it is the infix left once a whitespace prefix and suffix are cut off |
| Strings.StripInfix | data_preprocessing.py:23-25 | `strip()` removes only whitespace: the result is `s[a..b]` with everything before `a` and from `b` on whitespace |
| Strings.Split | data_preprocessing.py:25 | at least one piece; no piece contains the separator; pieces use only characters of the input |
| Strings.JoinSplit | data_preprocessing.py:25 | joining the pieces of a split with the separator gives back the text |
| Strings.SplitJoin | multi_criteria_structural_score.py:60 | splitting a join of separator-free pieces gives back the pieces |
| Strings.IsSubstring | data_preprocessing.py:87 | Python's `w in t` on strings: `w` occurs contiguously at some position of `t` (used by `Encoding.Matched`) |
| Strings.Less | data_preprocessing.py:36 | Python's `<` on strings, the order of `classes_`: a strict total order by `LessIrreflexive`, `LessTransitive`, `LessTotal` and `LessAsymmetric` |
| Strings.LessIrreflexive | data_preprocessing.py:36 | Python's string order is irreflexive |
| Strings.LessTransitive | data_preprocessing.py:36 | Python's string order is transitive |
| Strings.LessTotal | data_preprocessing.py:36 | any two distinct strings are ordered one way |
| Strings.LessAsymmetric | data_preprocessing.py:36 | Python's string order is asymmetric |
| Strings.SortedUnique | data_preprocessing.py:36-37 | two strictly increasing lists with the same members are equal, so `classes_` is determined by the corpus |
| Encoding.CleanWord | data_preprocessing.py:23-25 | `i.strip().lower()` of a non-blank item is a clean token (non-empty, bare, lowercase) and gains no comma |
| Encoding.LowerShape | data_preprocessing.py:23-25 | lowercasing keeps a bare word bare, adds no comma and leaves no uppercase letter |
| Encoding.CleanItems | data_preprocessing.py:22-23 | `[i.strip().lower() for i in x if isinstance(i, str) and i.strip()]`: its tokens are clean (`CleanItemsClean`), comma-free when the items are (`CleanItemsCommaFree`), and it distributes over concatenation (`CleanItemsAppend`) |
| Encoding.CleanItemsClean | data_preprocessing.py:23 | every token kept from a list is clean |
| Encoding.CleanItemsCommaFree | data_preprocessing.py:25 | comma-free items give comma-free tokens |
| Encoding.AsItems | data_preprocessing.py:88 | helper: a token list as a list cell: one string item per token, in order |
| Encoding.CleanSplit | data_preprocessing.py:18-26 | every token is clean; tokens from a string contain no comma; a missing, NaN or non-string, non-list value gives `[]` |
| Encoding.CleanItemsAppend | data_preprocessing.py:22-23 | cleaning distributes over concatenation, so order is kept and only blank or non-string items are dropped |
| Encoding.CleanTokensFixed | data_preprocessing.py:22-23 | a list of clean tokens is kept exactly as it is |
| Encoding.CleanSplitIdempotent | data_preprocessing.py:22-25 | `clean_split` applied to its own output returns that output |
| Encoding.CleanColumn | data_preprocessing.py:34 | helper: one token list per cell, each the cell's `clean_split` |
| Encoding.CleanedCells | data_preprocessing.py:34 | helper: `df[col].apply(clean_split)`: one list cell per record holding the record's tokens |
| Encoding.LessThanSorted | data_preprocessing.py:36 | a string below the head of a strictly increasing list is below all of it |
| Encoding.Insert | data_preprocessing.py:36 | inserting keeps the list strictly increasing and adds exactly the new token |
| Encoding.InsertAll | data_preprocessing.py:36 | inserting many keeps the list strictly increasing, with members the old ones plus the new tokens |
| Encoding.FitVocabulary | data_preprocessing.py:35-37 | the vocabulary is strictly increasing and holds exactly the tokens of some record |
| Encoding.VocabularyUnique | data_preprocessing.py:35-37 | any strictly increasing list of exactly the corpus tokens is the vocabulary |
| Encoding.VocabularyEmpty | data_preprocessing.py:33-37 | the vocabulary is empty, a zero-width block, exactly when every record has no token |
| Encoding.VocabularyValid | data_preprocessing.py:33-37 | a vocabulary of cleaned tokens is a valid vocabulary (sorted, unique, clean) |
| Encoding.Block | data_preprocessing.py:36 | a multi-hot block has one entry per vocabulary word |
| Encoding.BlockRoundTrip | data_preprocessing.py:36 | decoding a block gives back exactly the record's tokens that are in the vocabulary, so unknown tokens are dropped |
| Encoding.BlockEntries | data_preprocessing.py:61 | entry j is 1 exactly when vocabulary word j is among the tokens, and 0 otherwise; a duplicated token still gives a single 1 |
| Encoding.BlockSameTokens | data_preprocessing.py:61 | records that agree on the vocabulary words get the same block |
| Encoding.MinOf | data_preprocessing.py:46 | the minimum is a value of the column and below every value |
| Encoding.MaxOf | data_preprocessing.py:46 | the maximum is a value of the column and above every value |
| Encoding.FitBounds | data_preprocessing.py:46 | fitted bounds are ordered |
| Encoding.Scale | data_preprocessing.py:46 | min-max scaling with a zero range replaced by 1: `ScaleFitCorpus` puts the fit corpus in [0, 1], `ScaleInverse` undoes it for a non-zero range, `ScaleMonotone` keeps order |
| Encoding.ScaleFitCorpus | data_preprocessing.py:46 | on the fit corpus every scaled value is in [0, 1], the minimum goes to 0 and, when the range is not zero, the maximum goes to 1 |
| Encoding.ScaleWithin | data_preprocessing.py:69 | a value inside the bounds scales into [0, 1], with the bounds going to 0 and 1 |
| Encoding.DivideUnit | data_preprocessing.py:46 | helper: a ratio of a part to a positive whole is in [0, 1] |
| Encoding.ScaleInverse | data_preprocessing.py:69 | with a non-zero range, scaling is inverted by `lo + s * (hi - lo)` |
| Encoding.ScaleMonotone | data_preprocessing.py:69 | scaling keeps the order of values |
| Encoding.Blocks | data_preprocessing.py:43-50 | the categorical part of a row is as wide as the vocabularies together |
| Encoding.Scaled | data_preprocessing.py:46-47 | one scaled value per numeric column |
| Encoding.EncodeRow | data_preprocessing.py:49-50 | a row is as wide as the vocabularies plus the number of numeric columns |
| Encoding.BlocksAt | data_preprocessing.py:43-50 | the blocks follow the column order: column k's entry j sits at offset `Width(vocabs[..k]) + j` |
| Encoding.EncodeRowNumeric | data_preprocessing.py:47-50 | numeric column m sits after all blocks, at `Width + m`, holding its scaled value |
| Encoding.EncodeRowLayout | data_preprocessing.py:33-50 | the full layout: each block entry is 1 exactly when its word is in the record, and each numeric entry is scaled |
| Encoding.Matched | data_preprocessing.py:85-88 | the matched words are exactly the vocabulary words that occur as substrings of the text |
| Encoding.JdRow | data_preprocessing.py:76-99 | a job-description row has the same width as a candidate row |
| Encoding.JdRowLayout | data_preprocessing.py:80-98 | a job-description block entry is 1 exactly when its word occurs in the lowercased text, and each numeric entry is the scaling of 0.5 |
| Encoding.JdNumericIsScaled | data_preprocessing.py:91-92 | the neutral 0.5 is not what appears in the vector: with bounds 0..100 it becomes 0.005 |
| Preprocessing.Table.constructor | data_preprocessing.py:95 | a frame built from equally long columns has those columns and height |
| Preprocessing.Numbers | data_preprocessing.py:46 | helper: the values of an all-number column, in order |
| Preprocessing.VocabsOf | data_preprocessing.py:33-37 | helper: the vocabularies of the categorical columns, in column order |
| Preprocessing.RowTokens | data_preprocessing.py:34-36 | helper: a record's cleaned tokens, one list per categorical column |
| Preprocessing.RowNumbers | data_preprocessing.py:46 | helper: a record's numeric values, one per numeric column |
| Preprocessing.Encoded | data_preprocessing.py:33-50 | the encoded frame: one row per record, every row as wide as the vocabularies plus the numeric columns |
| Preprocessing.FitScaler | data_preprocessing.py:46 | fitted bounds, one ordered pair per numeric column |
| Preprocessing.CleanedTable | data_preprocessing.py:33-34 | helper: after cleaning, the frame has the same columns; categorical ones hold their tokens and the rest are untouched |
| Preprocessing.ScaledColumn | data_preprocessing.py:46 | a scaled column keeps its length, and cell i becomes the number `Scale(x_i, b)` |
| Preprocessing.LastIndex | data_preprocessing.py:46 | the last position of a column name in the list: the write `df[names] = ...` leaves in place |
| Preprocessing.ScaledTable | data_preprocessing.py:46 | scaling keeps the column names and every column's length, leaves the other columns as they were, and gives each numeric column its cells scaled by the bounds at that column's last position in the list |
| Preprocessing.CleanedCellsIdempotent | data_preprocessing.py:59 | cleaning an already cleaned column changes nothing |
| Preprocessing.CleanStep | data_preprocessing.py:33-34 | cleaning one more column extends the cleaned prefix and does not change that column's tokens |
| Preprocessing.CleanedAll | data_preprocessing.py:33-34 | once every categorical column is cleaned, the frame is `CleanedTable` |
| Preprocessing.CategoricalStep | data_preprocessing.py:43 | appending column k's block extends each row's blocks by that record's block |
| Preprocessing.FittedStep | data_preprocessing.py:33-37 | storing column k's fitted vocabulary extends the fitted prefix |
| Preprocessing.FittedAll | data_preprocessing.py:33-37 | after the loop every categorical column holds the vocabulary of its corpus |
| Preprocessing.FittedValidIf | data_preprocessing.py:37 | `mlb_dict` only gains fitted vocabularies and stays valid if it was |
| Preprocessing.FittedValid | data_preprocessing.py:37 | a valid `mlb_dict` stays valid while fitting |
| Preprocessing.Refitted | data_preprocessing.py:33-37 | `mlb_dict` after fitting some columns in order: exactly the old names and those columns, each of those holding its fitted vocabulary |
| Preprocessing.AppendBlock | data_preprocessing.py:43 | each row is extended by its record's block |
| Preprocessing.BlocksStep | data_preprocessing.py:36-43 | appending a column's blocks extends the encoded prefix by one column |
| Preprocessing.AppendScaled | data_preprocessing.py:47-50 | each row is extended by its record's scaled numeric values |
| Preprocessing.FinishEncoded | data_preprocessing.py:46-50 | the blocks followed by the scaled values are exactly `Encoded` |
| Preprocessing.CleanedPartly | data_preprocessing.py:33-34 | a frame cleaned part of the way has each column either untouched or cleaned |
| Preprocessing.FirstMissing | data_preprocessing.py:46 | the `KeyError` of `df[numeric_cols]`: none exactly when every column is present, otherwise a missing one |
| Preprocessing.FirstNonNumeric | data_preprocessing.py:46 | none exactly when every numeric column holds numbers, otherwise a column that does not |
| Preprocessing.FirstOutside | data_preprocessing.py:33-34 | the first position of a name outside a set, or the length: every name before it is in the set and the name at it is not |
| Preprocessing.FirstMissingKeys | data_preprocessing.py:46 | which numeric column is missing depends only on the column names, so cleaning does not change it |
| Preprocessing.NumericUntouched | data_preprocessing.py:34-46 | numeric columns that pass the check were not categorical, so cleaning left them as they were |
| Preprocessing.FitColumn | data_preprocessing.py:33-43 | one iteration of the fit loop: a `KeyError` exactly when the column is missing, otherwise the loop invariant is kept |
| Preprocessing.FitLoopDone | data_preprocessing.py:33-43 | after the fit loop: all columns present, all fitted, the frame cleaned, the blocks built |
| Preprocessing.FitStop | data_preprocessing.py:33-34 | the fit loop stops at the first missing column, with the columns before it cleaned and fitted |
| Preprocessing.FitColumns | data_preprocessing.py:33-43 | the fit loop fails exactly when a categorical column is missing, naming the first one; the columns before that one (all of them on success) are cleaned and have their vocabularies, and nothing else changes; on success the blocks are `Encoded`'s categorical part |
| Preprocessing.TransformColumn | data_preprocessing.py:58-67 | one iteration of the transform loop: `KeyError` on a missing column, then on an unfitted one, otherwise the invariant is kept |
| Preprocessing.CleanedNoNumbers | data_preprocessing.py:34 | cleaned categorical columns hold token lists, never numbers |
| Preprocessing.TransformLoopDone | data_preprocessing.py:58-67 | after the transform loop: all columns present and fitted, the frame cleaned, the blocks built |
| Preprocessing.TransformReach | data_preprocessing.py:58-60 | how many categorical columns `transform` cleans: those before the first missing or unfitted one, plus that one when it is present, since it is cleaned before its binarizer is looked up |
| Preprocessing.TransformStop | data_preprocessing.py:58-60 | the transform loop stops at the first missing or unfitted column, with exactly the reached columns cleaned |
| Preprocessing.TransformColumns | data_preprocessing.py:58-67 | the transform loop fails exactly when a categorical column is missing or unfitted, with `KeyError` for the first such column; exactly the columns it reached are cleaned; on success it builds the categorical part with the frozen vocabularies |
| Preprocessing.FitOkCleaned | data_preprocessing.py:28-50 | the numeric stage after cleaning succeeds exactly when the whole fit should, with the same bounds |
| Preprocessing.TransformOkCases | data_preprocessing.py:69 | `transform`'s numeric stage succeeds exactly when the numeric columns are present, the scaler is fitted, they hold numbers and there is a record |
| Preprocessing.CleanedTablePartly | data_preprocessing.py:33-34 | a fully cleaned frame is in particular partly cleaned |
| Preprocessing.EncodedBlockEntry | data_preprocessing.py:36 | in the encoded frame, record i's entry for column k's word j is 1 exactly when the word is among the record's tokens |
| Preprocessing.EncodedNumericEntry | data_preprocessing.py:46-47 | in the encoded frame, record i's numeric entry m is the scaling of its value |
| Preprocessing.FitEncodedNumericInUnit | data_preprocessing.py:46-50 | every numeric entry `fit_transform` outputs is in [0, 1] |
| Preprocessing.Preprocessor.constructor | data_preprocessing.py:7-16 | a new encoder has its column lists, no fitted vocabulary and an unfitted scaler |
| Preprocessing.Preprocessor.FitCategorical | data_preprocessing.py:33-43 | fails exactly on a missing categorical column, with `KeyError` for the first one; the columns before it (all on success) are cleaned in place and have their vocabularies stored, and no other entry of `mlb_dict` changes; on success it returns the blocks |
| Preprocessing.Preprocessor.FitNumeric | data_preprocessing.py:45-47 | succeeds exactly when every numeric column holds numbers and there is a record and a numeric column; then the scaler is fitted, the numeric columns are scaled in place and the values appended; on failure the frame is unchanged, and the scaler is kept when a numeric column is missing (the `KeyError` comes before `fit`) and reset otherwise |
| Preprocessing.Preprocessor.FitTransform | data_preprocessing.py:28-52 | succeeds exactly when the columns exist, numeric columns hold numbers and are not categorical, and the frame is not empty; then the result is `Encoded` with the fitted state and the frame is cleaned and scaled in place; on failure the frame has exactly the categorical columns before the first missing one cleaned, and the scaler is reset only when the numeric stage reached `fit` |
| Preprocessing.Preprocessor.TransformCategorical | data_preprocessing.py:58-67 | fails exactly on a missing or unfitted column, with the `KeyError` of the first one; exactly the columns it reached are cleaned in place; on success it returns the blocks from the frozen vocabularies |
| Preprocessing.Preprocessor.TransformNumeric | data_preprocessing.py:69-74 | scales the numeric columns with the frozen bounds and completes `Encoded`, or fails leaving the frame as it was |
| Preprocessing.Preprocessor.Transform | data_preprocessing.py:54-74 | succeeds exactly when `TransformOk` holds and then returns `Encoded` under the frozen state; on failure exactly the categorical columns it reached are cleaned; the encoder's state is not changed |
| Preprocessing.Preprocessor.BuildJdFrame | data_preprocessing.py:82-92 | the job-description frame holds the matched words per fitted column and 0.5 per numeric column |
| Preprocessing.Preprocessor.ProcessJobDescription | data_preprocessing.py:76-99 | succeeds exactly when every categorical column is fitted and the scaler is fitted; then the result is one row, `JdRow` of the lowercased text |
| Preprocessing.JdFrame | data_preprocessing.py:82-95 | a one-record frame with a column for every fitted vocabulary and every numeric column |
| Preprocessing.JdTransformOk | data_preprocessing.py:91-98 | the job-description frame passes `transform`'s checks exactly when every categorical column and the scaler are fitted |
| Preprocessing.JdEncoded | data_preprocessing.py:80-98 | transforming the job-description frame gives exactly the `JdRow` layout, since matched words survive re-cleaning |
| Preprocessing.CleanedColumnTokens | data_preprocessing.py:59 | a column cleaned once or not at all gives the same tokens |
| Preprocessing.MatchedClean | data_preprocessing.py:87-88 | matched vocabulary words are clean tokens |
| StructuralScore.Filter | multi_criteria_structural_score.py:57 | the regular expression keeps only `[a-zA-Z0-9, ]`, and text made only of those is unchanged; one character is kept exactly when it matches |
| StructuralScore.FilterAppend | multi_criteria_structural_score.py:57 | the filter distributes over concatenation, so the kept characters keep their order |
| StructuralScore.LowerKept | multi_criteria_structural_score.py:57 | lowercasing kept characters leaves lowercase letters, digits, commas and spaces |
| StructuralScore.StripClean | multi_criteria_structural_score.py:57 | stripping keeps text clean |
| StructuralScore.CleanText | multi_criteria_structural_score.py:56-57 | the result holds only lowercase ASCII letters, digits, commas and spaces, with no surrounding space |
| StructuralScore.CleanTextIdempotent | multi_criteria_structural_score.py:56-57 | cleaning a cleaned text changes nothing |
| StructuralScore.StripAll | multi_criteria_structural_score.py:60 | no more tokens than pieces; one piece gives its stripped form, or nothing when that is empty |
| StructuralScore.StripAllAppend | multi_criteria_structural_score.py:60 | stripping distributes over concatenation, so tokens keep the order of their pieces |
| StructuralScore.StripAllMembers | multi_criteria_structural_score.py:60 | the strings kept are exactly the non-empty stripped pieces |
| StructuralScore.StripAllTokens | multi_criteria_structural_score.py:60 | stripped non-empty pieces of clean comma-free text are tokens |
| StructuralScore.StripAllTokensFixed | multi_criteria_structural_score.py:60 | tokens are kept exactly, none dropped |
| StructuralScore.Tokenize | multi_criteria_structural_score.py:59-60 | the tokens are the stripped non-empty comma-separated pieces of the cleaned text, each non-empty, comma-free, stripped and clean |
| StructuralScore.TokenizeMembers | multi_criteria_structural_score.py:59-60 | a string is a token of a text exactly when it is a non-empty stripped piece of the cleaned text split at commas |
| StructuralScore.TokenizeEmpty | multi_criteria_structural_score.py:59-60 | the empty text has no tokens |
| StructuralScore.JoinClean | multi_criteria_structural_score.py:60 | clean pieces joined by commas are clean text |
| StructuralScore.JoinEnds | multi_criteria_structural_score.py:60 | a join of non-empty pieces starts with the first piece and ends with the last |
| StructuralScore.CleanTextJoin | multi_criteria_structural_score.py:56-60 | tokens joined by commas are already clean text |
| StructuralScore.TokenizeJoin | multi_criteria_structural_score.py:59-60 | tokenizing the comma-join of the tokens gives the same tokens in the same order |
| StructuralScore.Get | multi_criteria_structural_score.py:67-71 | `d.get(key, "")`: the value under the key, or `""` when there is none |
| StructuralScore.ParseJd | multi_criteria_structural_score.py:62-72 | the parsed criteria: `ParseJdMissing` gives the empty defaults and the lowercased domain, `ParseJdTokens` that the lists hold tokens |
| StructuralScore.ParseJdMissing | multi_criteria_structural_score.py:62-72 | a missing list field gives an empty list and a missing domain `""`; the domain keeps its length and every non-uppercase character, punctuation included |
| StructuralScore.ParseJdTokens | multi_criteria_structural_score.py:66-71 | every parsed criterion is a list of tokens |
| StructuralScore.Jaccard | multi_criteria_structural_score.py:77-79 | similarity is 0 when either set is empty |
| StructuralScore.TokenSet | multi_criteria_structural_score.py:84-86 | `set(tokenize(text))`, the set `ComputeStructuralScore` compares, which `ScorePerfect` and `ScoreZero` describe |
| StructuralScore.Ratio | multi_criteria_structural_score.py:80 | helper: a count over a larger positive count is in [0, 1]; it is 1 exactly when they are equal and 0 exactly when the numerator is 0 |
| StructuralScore.OverlapCount | multi_criteria_structural_score.py:80 | the intersection is no larger than the union, and as large exactly when the sets are equal |
| StructuralScore.JaccardBounds | multi_criteria_structural_score.py:77-80 | similarity lies in [0, 1] |
| StructuralScore.JaccardSymmetric | multi_criteria_structural_score.py:77-80 | similarity is symmetric |
| StructuralScore.JaccardOne | multi_criteria_structural_score.py:77-80 | similarity is 1 exactly for two equal non-empty sets |
| StructuralScore.JaccardZero | multi_criteria_structural_score.py:77-80 | similarity is 0 exactly when the sets share no element |
| StructuralScore.ComputeStructuralScore | multi_criteria_structural_score.py:82-115 | fails with `KeyError('skills')` exactly when the candidate has no skills; the skills, soft-skills and languages scores are the Jaccard similarities of the candidate's token sets with the job description's, each in [0, 1]; the domain score is 1 exactly when the lowercased domains are equal and 0 otherwise; final is the 0.3/0.2/0.1/0.2 weighting of the four sub-scores |
| StructuralScore.MissingDomainsMatch | multi_criteria_structural_score.py:87-99 | a candidate and a job description that both lack a domain get domain score 1 |
| StructuralScore.ScoreBounds | multi_criteria_structural_score.py:101-107 | the final score lies in [0, 0.8] |
| StructuralScore.ScorePerfect | multi_criteria_structural_score.py:96-107 | the final score is 0.8 exactly when every token set equals the job description's, none empty, and the domains agree |
| StructuralScore.ScoreZero | multi_criteria_structural_score.py:96-107 | the final score is 0 exactly when no field shares a token and the domains differ |
| StructuralScore.EntryOf | multi_criteria_structural_score.py:131-136 | a row's entry exists exactly when it has skills, candidate id and name, and then carries the id, the name and the row's scores |
| StructuralScore.Outcomes | multi_criteria_structural_score.py:130-131 | helper: one outcome per row, in row order |
| StructuralScore.CollectOk | multi_criteria_structural_score.py:129-136 | collecting succeeds exactly when every outcome does, and keeps every value in order |
| StructuralScore.CollectErr | multi_criteria_structural_score.py:129-136 | a failed collection carries the first failure's error |
| StructuralScore.CollectFails | multi_criteria_structural_score.py:129-136 | once a prefix fails, the whole collection fails the same way |
| StructuralScore.Results | multi_criteria_structural_score.py:129-136 | the list the loop builds, or the first row's error; `ResultsShape` states its shape |
| StructuralScore.ResultsShape | multi_criteria_structural_score.py:129-136 | the results exist exactly when every row has its fields, and then hold one entry per candidate in row order; otherwise the error is that of the first bad row |
| StructuralScore.ResultsStep | multi_criteria_structural_score.py:130-136 | scoring one more row either extends the results so far by its entry or makes the whole loop fail with that row's error |
| StructuralScore.CollectResults | multi_criteria_structural_score.py:129-136 | the loop computes `Results` |
| StructuralScore.InsertDesc | multi_criteria_structural_score.py:138 | inserting into a list sorted by descending score keeps it sorted and adds exactly the new entry |
| StructuralScore.SortDesc | multi_criteria_structural_score.py:138 | the output is sorted by non-increasing final score and is a permutation of the input |
| StructuralScore.Rank | multi_criteria_structural_score.py:129-138 | succeeds exactly when there is a candidate and every row has its fields; then holds one entry per candidate, sorted by non-increasing final score, a permutation of the results; with no candidate it is the `KeyError('final_score')` of sorting an empty frame; otherwise the first bad row's error |

## Left out

- Cosine similarity and the `__main__` ranking (data_preprocessing.py:135-138). The whole of app.py is also left out. Both are library calls over floats.
- jd_extraction.py and the configuration, CSV loading and Gemini call at the top of multi_criteria_structural_score.py. All of that is I/O or calls into services outside this code.
- Printing, and the column names `f"{col}_{c}"` of the encoded frames. The model returns rows of values, whose layout is proved instead.
- Floating point. Every score and scaled value is an exact `real`, so 0.3, 0.8 and the like are exact.
- NaN and numeric strings in numeric columns. A numeric cell is either a number or a value the scaler refuses. pandas' coercion of numeric strings is not modelled.
- Unicode. `lower` and `strip` are ASCII only: whitespace is code points 9-13 and 28-32, and uppercase is `A`-`Z`.
  - `clean_text` is exact regardless, because its filter leaves only ASCII.
  - The domain in `parse_jd` and `compute_structural_score` is lowercased only for ASCII letters.
- Field values of the structural scorer are strings. Rows holding numbers or NaN in these fields are not modelled.
- Preprocessing.Preprocessor.FitTransform: the same numeric column listed twice is not modelled. The model's `ScaledTable` writes it once.
- Preprocessing.Preprocessor.FitNumeric: the error names one missing or non-numeric column, and which of the numeric checks fails first is not stated. pandas' `KeyError` lists all the missing ones.
- Preprocessing.Preprocessor.Transform: when the numeric stage fails, which error it reports is not stated, only that it fails and leaves the cleaned frame.
- StructuralScore.SortDesc: the order among equal final scores is not claimed. pandas' default sort is not stable.
- StructuralScore.EntryOf: `candidate_id` and `name` are modelled as strings.
