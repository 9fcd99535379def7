# Fuzzy administrative-area matcher — a Dafny model

The system merges two tabular datasets whose rows name Ethiopian
administrative areas (region, zone, woreda). The spelling of those names
differs between the datasets. Two routines are modelled:

- **Column resolution** (`map_columns` in `app.py`). A dataset's column
  names are stripped and lower-cased. Each required key (`region`, `zone`,
  `woreda`) takes the column whose normalised name scores best against it
  under `fuzz.ratio`, provided that score is at least 85. A key that gets no
  such column is reported missing.
- **Standardise, match and merge** (`match_and_merge_two_datasets` in
  `standardizer.py`).
  - Each copy is standardised. Every mapped column that is not already named
    canonically is renamed to its key, and its values are replaced by the
    stripped, lower-cased text.
  - Greedy first fit: every row of the first dataset, in order, takes the
    first row of the second dataset that no earlier row has claimed and whose
    region, zone and woreda scores reach their thresholds.
  - The result is three tables. *merged* holds each original first-dataset
    row plus the second dataset's non-key columns. *unmatched1* holds the
    first-dataset rows that found no partner. *unmatched2* holds the
    second-dataset rows nobody claimed, in their original order.

The similarity functions (`fuzz.ratio`, `fuzz.token_set_ratio`) are
parameters: any function from two strings to a score in [0, 100]. Every
property is proved for all such scorers. `process.extractOne` is modelled as
a first-maximum search over the choices.

Modules:

- `Wrappers`: `Option`, `Result`.
- `TextNorm`: `strip`, `lower`, their composition.
- `Tables`: cells, rows, tables, the ordered dictionary.
- `Scoring`: scores, `extractOne`.
- `Frames`: the mutable working copy, with rename and column normalisation.
- `GreedyMatch`: the first-fit pairing as a specification.
- `Standardizer`: the standardisation loop, the nested matching loops and
  result assembly.
- `ColumnResolver`: `map_columns`.

The imperative parts are methods proved against specification functions:

- `StandardizeKeys` against `Standardized`;
- `MatchRow` and `GreedyMerge` against `FirstFit` and `Pairing`;
- `MatchAndMerge` against `MatchAndMergeSpec`;
- `MapColumns` against `MappingFor` and `MissingFor`.

The working copies are `Frame` objects, and they are updated in place.

Exceptions are part of the model:

- `KeyNotFound`: a `KeyError` for a label that is not there.
- `AmbiguousColumn`: a rename onto a label that already exists leaves the
  label twice, so `df[label]` is a frame and `.str` fails.

An entry whose mapped column already carries the canonical name is skipped:
the source renames and normalises only when the two names differ. Such a key
column keeps its raw text, unless another entry of the same mapping renames
a column onto that name or renames it away. `CanonicalKeyKeepsValues` states
this for a mapping in which no other entry names the column. Entries that do
not interfere with each other (distinct keys, distinct mapped columns, no
mapped column that is another entry's key) each leave their canonical column
holding the normalised text of the column they mapped; `MappedColumnNormalized`
states this for the whole loop.

## Model

| member | source | states |
|---|---|---|
| TextNorm.Strip | standardizer.py:31 | the result is a contiguous piece of the input; only white space is removed before and after it, and it neither starts nor ends with white space |
| TextNorm.Normalize | app.py:97 | `s.strip().lower()`, used on column names here and on key values at standardizer.py:31; NormalizeIsNormal states its result is in normal form and NormalFormIsFixed that normal forms are fixed |
| TextNorm.Lower | standardizer.py:31 | same length; each character is mapped to lower case (A-Z shifted by 32, others kept), so no upper-case letter remains |
| TextNorm.NormalizeIsNormal | standardizer.py:31 | strip-then-lower yields text with no surrounding white space and no upper-case letter |
| TextNorm.NormalFormIsFixed | standardizer.py:31 | text already in normal form is unchanged by strip-then-lower |
| TextNorm.NormalizeIdempotent | app.py:97 | normalising twice equals normalising once |
| Tables.Str | standardizer.py:56-58 | `str(v)` of a cell: the text of a text cell, the rendered text of any other value (NormalizedCell and the three scores are stated through it) |
| Tables.Values | standardizer.py:40 | `col_mapping2.values()` as a set: NonKeyColumns states that a df2 label is non-key exactly when it is not among them |
| Tables.Without | standardizer.py:40 | a label is kept exactly when it is in the input and not excluded; distinct labels stay distinct |
| Tables.Get | app.py:104 | dictionary lookup: none exactly when the key is absent; a found value is the value of that key's entry |
| Tables.Put | app.py:104 | dictionary assignment: keys stay distinct; the key now maps to the value; every other key's lookup is unchanged; a new key goes last and an existing key keeps its place |
| Tables.GetOfEntry | app.py:104 | with distinct keys, looking up an entry's key returns that entry's value |
| Scoring.ExtractOne | app.py:101 | none exactly when there are no choices; otherwise a valid position with its choice and score, no choice scores higher, and every earlier choice scores strictly lower (first maximum) |
| Frames.RenamedColumns | standardizer.py:30 | every occurrence of the old label becomes the new one, other labels keep their order |
| Frames.RenamedColumnSet | standardizer.py:30 | a label is present after renaming exactly when it was present and is not the old label, or it is the new label and the old label was present |
| Frames.RenamedRow | standardizer.py:30 | the new label holds the old label's value, the old label is gone, other cells are unchanged; a row without the old label is unchanged |
| Frames.RenamedTable | standardizer.py:30 | labels renamed and every row renamed, row count kept, rows still match the labels |
| Frames.NormalizedCell | standardizer.py:31 | the new cell is text in normal form |
| Frames.NormalizedColumn | standardizer.py:31 | KeyError exactly when the label is absent; error exactly when it occurs twice or more; success exactly when it occurs once, and then each row's cell is the normalised old cell and every other cell is unchanged |
| Frames.Frame.Copy | standardizer.py:24-25 | the copy holds the table's value |
| Frames.Frame.Rename | standardizer.py:30 | the frame's new value is the renamed old value |
| Frames.Frame.NormalizeColumn | standardizer.py:31 | on success the frame becomes the normalised table; on an exception it reports the error and is unchanged |
| GreedyMatch.RegionScore | standardizer.py:56 | `fuzz.ratio` of the two rows' region text; PairsPassAllThresholds states that every pair the loop makes reaches the region threshold |
| GreedyMatch.ZoneScore | standardizer.py:57 | `fuzz.ratio` of the two rows' zone text; PairsPassAllThresholds states the zone threshold holds for every pair |
| GreedyMatch.WoredaScore | standardizer.py:58 | `fuzz.token_set_ratio` of the two rows' woreda text; PairsPassAllThresholds states the woreda threshold holds for every pair |
| GreedyMatch.Accepts | standardizer.py:60-62 | a pair is accepted when the region, zone and woreda scores all reach their thresholds (PairsPassAllThresholds states it of every pair the loop makes) |
| GreedyMatch.FirstFit | standardizer.py:52-74 | the inner scan as a function: the first unclaimed accepting B position from a start position (FirstFitIsFirst states it) |
| GreedyMatch.FirstFitIsFirst | standardizer.py:52-74 | a found B position is unclaimed and passes all three thresholds, and no earlier unclaimed position does; when none is found, no unclaimed position passes |
| GreedyMatch.Claimed | standardizer.py:45-72 | `matched_indices_df2` after the turns of a pairing; ClaimedHolds states its members and ClaimedCount its size |
| GreedyMatch.ClaimedHolds | standardizer.py:72 | a position is claimed exactly when some entry of the pairing holds it |
| GreedyMatch.CountMatched | standardizer.py:71 | the number of matched A rows, at most the number of A rows seen; AssembledCounts and ClaimedCount state what it counts |
| GreedyMatch.Pairing | standardizer.py:48-77 | one decision for each A row seen; the substance is in PairingIsFirstFit, PairingInjective and ClaimedCount |
| GreedyMatch.PairingInRange | standardizer.py:52 | every paired position is a B row |
| GreedyMatch.PairingPrefix | standardizer.py:48 | the decisions for the first i A rows do not depend on later rows |
| GreedyMatch.PairingTurn | standardizer.py:48-74 | A row i gets the first fit among the positions left unclaimed by rows before it, and it adds only that position to the claimed set |
| GreedyMatch.PairingIsFirstFit | standardizer.py:52-74 | a paired row passes all thresholds against a position unclaimed before it, and every earlier unclaimed position fails; an unpaired row fails against every position unclaimed before it |
| GreedyMatch.PairsPassAllThresholds | standardizer.py:56-62 | a paired B row is in range and its region, zone and woreda scores reach their thresholds |
| GreedyMatch.PairingInjective | standardizer.py:53-54 | no B row is paired with two A rows |
| GreedyMatch.InjectiveClaimedCount | standardizer.py:72 | when no position is held twice, the claimed set has exactly one position per matched entry |
| GreedyMatch.ClaimedCount | standardizer.py:72 | the claimed set has exactly one position for each matched A row, all within B |
| Standardizer.StandardizedKey | standardizer.py:29-31 | a successful step keeps the rows matching the labels, keeps the row count, and keeps unique labels unique |
| Standardizer.Standardized | standardizer.py:28-31 | a successful standardisation keeps the rows matching the labels, keeps the row count, and keeps unique labels unique |
| Standardizer.ErrorIsFinal | standardizer.py:28-31 | once an entry raises, the later entries do not change the outcome |
| Standardizer.StandardizeKeys | standardizer.py:28-36 | the loop in place: it reports no error exactly when the specification succeeds, and then the frame is the standardised table; otherwise it reports the specification's error |
| Standardizer.RenamedDistinct | standardizer.py:30-31 | renaming keeps unique labels unique when the new label ends up occurring at most once, which is what a successful column normalisation requires |
| Standardizer.RenamedOccurrences | standardizer.py:30 | after renaming the old label to the new one, the new label occurs as often as both did before, and the old label no longer occurs |
| Standardizer.OccursOnceInDistinct | standardizer.py:30 | in distinct labels a label occurs once when present and never when absent |
| Standardizer.RenamedKeyIsNormalized | standardizer.py:29-31 | with a differing mapped name, the step succeeds exactly when exactly one of the mapped name and the key is present; then the key occurs once, the mapped name is gone, the key holds normalised values, and other cells are unchanged |
| Standardizer.CanonicalMappingKeepsTable | standardizer.py:29 | a mapping whose every entry is already named canonically leaves the table unchanged |
| Standardizer.CanonicalKeyKeepsValues | standardizer.py:28-31 | with distinct keys, a canonical entry `(c, c)` whose name no other entry maps to leaves column `c` present exactly when it was, with its raw values |
| Standardizer.MappedColumnNormalized | standardizer.py:28-31 | after the whole loop over untangled entries, each entry with a differing mapped name succeeded because exactly one of its two names was an input column; its canonical name is now a column holding the normalised text of that input column, and its mapped name is gone |
| Standardizer.UntangledInit | standardizer.py:28 | dropping the last entry keeps the entries untangled, and no earlier entry names either of the last entry's names |
| Standardizer.LaterEntryKeeps | standardizer.py:29-31 | an entry naming neither of a settled entry's names keeps the canonical column and its normalised values, and keeps the mapped name absent |
| Standardizer.LastEntryNormalized | standardizer.py:29-31 | an entry whose names no earlier entry touched succeeds only when exactly one of them was an input column, and leaves the canonical column holding the normalised input values |
| Standardizer.UnmappedColumnKeptByKey | standardizer.py:29-31 | one step keeps, with its values, a column that is neither its key nor its mapped column |
| Standardizer.UnmappedColumnKept | standardizer.py:28-31 | a column that no entry renames (every entry naming it is the canonical entry for it) is present after standardisation exactly when before, with its values |
| Standardizer.NonKeyColumns | standardizer.py:40 | a df2 label is non-key exactly when it is not a mapped value; distinct labels stay distinct |
| Standardizer.Combined | standardizer.py:65-69 | the A row with B's value written over it for each non-key column; CombinedRow states its keys and values and CombineRow that the loop builds it |
| Standardizer.CombinedRow | standardizer.py:65-69 | the combined row has the A row's keys plus the non-key labels; non-key labels take B's values, other labels A's |
| Standardizer.CombineRow | standardizer.py:65-69 | the loop that fills the combined row builds exactly the combined row |
| Standardizer.MappedKeysNotMerged | standardizer.py:68-69 | a df2 column named in the mapping (so left out of the list of line 40) never overwrites an A value in the combined row |
| Standardizer.CombinedSnoc | standardizer.py:68-69 | writing one more B column over the combined row gives the combined row for the longer column list (a loop step of CombineRow; the substance is in CombinedRow) |
| Standardizer.MergedUpTo | standardizer.py:43-71 | `matched_rows` after the first n A rows; AssembledCounts states its length and RowPlacement where each paired A row lands in it |
| Standardizer.MergedStep | standardizer.py:71 | the merged list grows by the combined row exactly when A row i is paired (a loop step of GreedyMerge; the substance is in AssembledCounts and RowPlacement) |
| Standardizer.UnmatchedUpTo | standardizer.py:44-77 | `unmatched_df1_rows` after the first n A rows; AssembledCounts states its length and RowPlacement where each unpaired A row lands in it |
| Standardizer.UnmatchedStep | standardizer.py:76-77 | the unmatched list grows by the original A row exactly when A row i is unpaired (a loop step of GreedyMerge; the substance is in AssembledCounts and RowPlacement) |
| Standardizer.AssembledCounts | standardizer.py:71-77 | after i A rows, the merged rows equal the matched rows seen and they add up to i with the unmatched rows |
| Standardizer.RowPlacement | standardizer.py:48-77 | A row i, when paired, is the base of merged row number "matched rows before i", combined with its partner; when unpaired, it is unmatched row number "unpaired rows before i" |
| Standardizer.UnclaimedIndices | standardizer.py:82 | every listed position is below the row count and unclaimed, and the list is increasing |
| Standardizer.UnclaimedIndicesComplete | standardizer.py:82 | every unclaimed position below the row count is listed |
| Standardizer.UnclaimedIndicesOnlyBelow | standardizer.py:82 | only claims below the row count matter |
| Standardizer.UnclaimedCount | standardizer.py:82 | unclaimed and claimed positions add up to the row count |
| Standardizer.SelectRows | standardizer.py:83 | row k of the selection is the row at the k-th listed position |
| Standardizer.UnmatchedBRows | standardizer.py:82-83 | unmatched2 keeps df2's labels and lists, in increasing B order, exactly the df2 rows that no A row was paired with |
| Standardizer.MatchRow | standardizer.py:49-74 | the inner loop: it finds a partner exactly when the first fit exists; it then appends the combined row of the original rows and claims that position, and otherwise leaves both unchanged |
| Standardizer.GreedyStep | standardizer.py:48-74 | at turn i the A row has its keys, its decision is the first fit among the positions not claimed by earlier rows, and only that position is added to the claims |
| Standardizer.GreedyMerge | standardizer.py:43-77 | the nested loops: the merged rows, unmatched A rows and claimed positions are those of the greedy first-fit pairing, and the set of claimed B positions is as large as the merged list and lies within B |
| Standardizer.ClaimedMerged | standardizer.py:71-72 | the greedy pairing claims exactly one B position per merged row, each within B |
| Standardizer.FirstMissingKey | standardizer.py:56-58 | none exactly when both copies have region, zone and woreda; otherwise a key that one copy lacks |
| Standardizer.ScorableWhenKeysPresent | standardizer.py:56-58 | when the lookups can be reached they find the keys in every row |
| Standardizer.NonKeyColumnsPresent | standardizer.py:69 | every df2 row has every non-key column |
| Standardizer.MergedColumns | standardizer.py:79 | the merged frame has no labels when there are no merged rows; otherwise its labels start with df1's labels, in order, and are exactly df1's labels and the non-key labels |
| Standardizer.UnmatchedColumns | standardizer.py:80 | the unmatched1 frame has no labels when there are no rows, otherwise exactly df1's labels |
| Standardizer.Assemble | standardizer.py:79-83 | the merged frame has one row per matched A row, merged plus unmatched1 rows count the A rows, and unmatched2 keeps df2's labels |
| Standardizer.MatchAndMergeSpec | standardizer.py:5-85 | an exception in standardising df1 is the result, then one in df2; on success merged plus unmatched1 rows count the df1 rows and unmatched2 keeps df2's labels |
| Standardizer.MergedRowKeys | standardizer.py:65-79 | every merged row holds exactly the merged frame's labels |
| Standardizer.UnmatchedRowsFromA | standardizer.py:77 | every unmatched row is an original df1 row |
| Standardizer.AssembledWellFormed | standardizer.py:79-83 | the three result frames have distinct labels and complete rows |
| Standardizer.AssembledCountsPartition | standardizer.py:79-83 | merged plus unmatched1 is the df1 row count, and merged plus unmatched2 is the df2 row count |
| Standardizer.OutcomePartitions | standardizer.py:48-85 | on success, merged plus unmatched1 rows count the df1 rows, merged plus unmatched2 rows count the df2 rows, and all three frames are well formed (where each row goes is stated by RowPlacement and UnmatchedBRows) |
| Standardizer.MergedRowOrigin | standardizer.py:65-71 | every merged row combines some paired A row with its partner |
| Standardizer.PairedRowPassesThresholds | standardizer.py:56-71 | every merged row combines original rows whose working keys pass all three thresholds |
| Standardizer.MergedRowsPassThresholds | standardizer.py:5-85 | every row of the merged result is an original df1 row combined with an original df2 row whose standardised region, zone and woreda pass the thresholds |
| Standardizer.MatchAndMerge | standardizer.py:5-85 | the whole function equals the specification (the result or the exception raised), and on success both row-count partitions hold |
| ColumnResolver.NormalizedColumns | app.py:97 | one normalised name per column, in order, each in normal form |
| ColumnResolver.IndexOf | app.py:103 | the first position holding the value |
| ColumnResolver.Resolve | app.py:101-104 | a resolved key maps to an existing column |
| ColumnResolver.IndexOfBest | app.py:101-103 | the first position of the best name is the position extractOne reports |
| ColumnResolver.ResolvedIff | app.py:101-106 | a key is mapped exactly when some column's normalised name scores at least 85, so with no columns it is missing |
| ColumnResolver.ResolvedIsFirstBest | app.py:97-103 | the mapped column is the first, in original order, whose normalised name attains the best score, and that score is at least 85 |
| ColumnResolver.ExactNameResolves | app.py:97-104 | a column whose name normalises to the key is always resolved when identical strings score 100 |
| ColumnResolver.MappingFor | app.py:98-104 | the mapping built so far has distinct keys |
| ColumnResolver.MapColumns | app.py:96-107 | the loop builds the specified mapping and missing list; each required key looks up to its resolution; a key is missing exactly when it is required and unresolved |
| ColumnResolver.MappingForGet | app.py:100-104 | looking up a key gives its resolution when it is required, and nothing otherwise |
| ColumnResolver.MissingFor | app.py:99-106 | `missing_cols` after the loop: never longer than the required list (MissingForMembers gives its members, MissingInOrder its order) |
| ColumnResolver.MissingPositions | app.py:100-106 | the positions of the required list whose keys are missing: each is a position of the list, and they increase |
| ColumnResolver.MissingInOrder | app.py:100-106 | `missing_cols` keeps the order of `required_cols`: its k-th entry is the unresolved required key at the k-th of the increasing missing positions |
| ColumnResolver.MissingPositionsComplete | app.py:100-106 | every position of the required list whose key does not resolve is a missing position |
| ColumnResolver.MissingForMembers | app.py:105-106 | a key is in the missing list exactly when it is required and unresolved |
| ColumnResolver.KeysPartition | app.py:100-106 | a required key is in exactly one of the mapping and the missing list; any other key is in neither |
| ColumnResolver.MappedValuesAreColumns | app.py:103 | every mapped value is an existing column |
| ColumnResolver.MappingKeysInOrder | app.py:100-106 | with distinct keys, the mapping's keys are the resolved keys in required order, and keys plus missing cover every required key once |
| ColumnResolver.SharedColumnExample | app.py:100-106 | keys resolve independently: one column can be the mapping of all three keys |

## Left out

- The Streamlit interface is presentation only, so it is not modelled: page setup, sliders, messages, `st.dataframe` and download buttons.
- File reading (`read_file`, `pd.read_csv`, `pd.read_excel`), image embedding and CSV export are external I/O and serialisation.
- The `try`/`except` that displays any exception is left out. Exceptions are returned as `Err` values instead.
- The internals of `fuzz.ratio`, `fuzz.token_set_ratio` and any default preprocessing are not modelled. They are arbitrary scorers into [0, 100], so the floating-point score values are abstract.
- Scoring.ExtractOne: a first-maximum search. The library's own tie-breaking and score cutoff are taken on trust.
- `astype(str)` and `str()` of numbers and missing values: a non-text cell carries its rendered text instead of a conversion.
- TextNorm.Strip and TextNorm.Lower cover only the ASCII range of Python's white-space and case tables. Other Unicode characters are never stripped or lowered.
- Rows are assumed to have a positional range index, so `iloc` and `iterrows` labels coincide. `unmatched_df2`'s index labels are not modelled.
- Column labels are assumed to be strings. `col.strip()` on a non-string label is not modelled.
- Standardizer.MappedColumnNormalized: stated only for untangled mappings. When one entry's mapped column is another entry's key, or two keys share a column, a later entry can rename a column an earlier one produced; the model computes that outcome but no lemma characterises it.
- Tables.WellFormed: input tables have distinct column labels, as the file readers produce. A row is a map, so a duplicate label inside a working copy is modelled only through the error it raises.
- Standardizer.MatchAndMergeSpec raises the key-lookup error of lines 56-58 before any matching starts, when both copies are non-empty. This is the same outcome as when the source raises at its first comparison, because the function returns nothing from that point on.
- A row read through `iterrows` or `iloc` can have its values converted to a common type by pandas (an integer next to float columns becomes a float). The model keeps every cell as it was loaded.
- The `dtype` of the result frames and their index labels are not modelled. Only their column order and row contents are.
- The unused `key_cols` list (standardizer.py:39) has no effect and is not modelled.
