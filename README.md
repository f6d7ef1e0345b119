# pyhaywoodcc multi-valued field transcoding, modelled in Dafny

pyhaywoodcc reads data from Colleague. Colleague stores some fields as
*multi-valued*: one logical record is spread over several physical rows that
share a key. `src/pyhaywoodcc/utils.py` provides two engines that convert
between that layout and delimiter-separated text:

- **collapse** (`mv_to_delim`, with its inner `_process_list`, and the
  wrapper `mv_to_commas`) turns the rows of one key into one row. Each
  multi-valued column then holds its values joined with a delimiter.
  Columns of an *association* are collapsed together. Each independent
  column is collapsed alone. Null values are encoded with a sentinel string,
  so that an all-null cell stays null and a null inside a list becomes an
  empty piece.
- **expand** (`delim_to_mv` and the wrapper `commas_to_mv`) splits each
  named column on the delimiter. It explodes each one to one row per piece
  and lays the second and later columns onto the first column's rows by
  position. It then merges the result back onto the keys and the untouched
  columns.

The model represents a table as a column list plus a sequence of rows. Each
row is a map from column name to `Option<string>`, with `None` for a null.

Modules:
- `tables.dfy`: `Tables`, the frame operations the engines use: column
  selection, `dropna(how="all")`, left merge on keys, and lookup by key.
- `text.dfy`: `Text`, `str.join` and an exact left-to-right `str.split`,
  with both round trips.
- `sentinel.dfy`: `Sentinel`, the null-versus-empty encoding as a token
  datatype.
- `filldown.dfy`: `ForwardFill`, the in-place forward fill of the keys, as
  a carry-last-value loop over an array.
- `collapse.dfy`: `Collapse`, `_process_list`, `mv_to_delim` and
  `mv_to_commas`. The merge loop is a method proved against the function
  `Collapse`.
- `expand.dfy`: `Expand`, `delim_to_mv` and `commas_to_mv`. The `build_df`
  accumulator is an array updated column by column. The method is proved
  against the function `Expanded`.
- `expand_empty.dfy`: `EmptyAccumulator`, the `build_df.empty` test exactly
  as written (see Findings).
- `key_layout.dfy`: `KeyLayout`, what the collapse engine makes of one
  record laid out with its key on the first row only (one row) or repeated
  on every row (one copy of that row per physical row), and the documented
  example in both layouts (see Findings).
- `roundtrip.dfy`: `RoundTrip`, a collapsed cell exploded back, and the
  documented example collapsed and expanded back.

## Model

| member | source | states |
|---|---|---|
| Tables.Without | src/pyhaywoodcc/utils.py:67 | The unused columns are exactly the table's columns minus the excluded ones, and they stay distinct. |
| Tables.WithoutPrefix | src/pyhaywoodcc/utils.py:195 | Removing the keys from `keys + cols` leaves `cols`, when no name repeats. |
| Tables.Select | src/pyhaywoodcc/utils.py:131 | `df.loc[:, names]` has exactly the named columns in the given order, the same number of rows, and each row restricted to those columns. |
| Tables.DropAllNull | src/pyhaywoodcc/utils.py:68 | `dropna(how="all")` keeps a row iff it has a non-null cell. It never adds rows. |
| Tables.DropAllNullCounts | src/pyhaywoodcc/utils.py:68 | Each row that has a non-null cell is kept as many times as it occurs, and an all-null row not at all. |
| Tables.DropAllNullAppend | src/pyhaywoodcc/utils.py:68 | Dropping works row by row: on two runs of rows it is the drop of the first run followed by the drop of the second, so the order is kept. |
| Tables.DropAllNullKeepsAll | src/pyhaywoodcc/utils.py:86 | Rows that each have a non-null cell are all kept, unchanged and in order. |
| Tables.DropAllNullDropsAll | src/pyhaywoodcc/utils.py:68 | Rows that are all null are all dropped. |
| Tables.LeftJoin | src/pyhaywoodcc/utils.py:119 | The merge's columns are the left columns followed by the right-hand columns that are not keys. |
| Tables.LeftJoinColumns | src/pyhaywoodcc/utils.py:128 | Every merged row holds every column of the merged table. |
| Tables.Matching | src/pyhaywoodcc/utils.py:218 | The right rows matching a key are drawn from the right table. |
| Tables.MatchingMembers | src/pyhaywoodcc/utils.py:218 | The right rows found for a key are exactly the rows with that key. None are found when no row has it. |
| Tables.MatchingUnique | src/pyhaywoodcc/utils.py:119 | With unique right-hand keys, at most one right row matches. |
| Tables.MatchingAll | src/pyhaywoodcc/utils.py:105 | When every row carries the key, the rows found for it are all the rows, in order. |
| Tables.MatchingRange | src/pyhaywoodcc/utils.py:218 | When the rows with a key are exactly a contiguous run, the rows found are that run, in order. |
| Tables.Lookup | src/pyhaywoodcc/utils.py:119 | The row found for a key has that key. Nothing is found only when no row has it. |
| Tables.JoinOne | src/pyhaywoodcc/utils.py:119 | A left merge never drops a left row: each gives at least one merged row. The rows per match are stated by Tables.JoinOneRange and Tables.MergeOnUniqueKeys. |
| Tables.JoinOneUnique | src/pyhaywoodcc/utils.py:128 | With unique right-hand keys, one left row merges to exactly one row. |
| Tables.MergeOnUniqueKeys | src/pyhaywoodcc/utils.py:119 | A left merge against unique keys neither drops nor duplicates rows. Row i is left row i with the matched cells, or nulls when the key is missing. |
| Tables.JoinOneRange | src/pyhaywoodcc/utils.py:218 | When the matches of a left row are a contiguous run, its merged rows are one per match, in order. |
| Tables.JoinOneAt | src/pyhaywoodcc/utils.py:218 | The same, for the j-th merged row. |
| Tables.MergedRowExtends | src/pyhaywoodcc/utils.py:119 | Merging in columns that a row already holds exactly as the merge brings them gives the row over both column lists. |
| Text.FindFromFirst | src/pyhaywoodcc/utils.py:206 | The delimiter search returns the first occurrence at or after the start. It returns nothing only when there is no occurrence. |
| Text.Split | src/pyhaywoodcc/utils.py:206 | `str.split` always yields at least one piece. |
| Text.JoinSplitFrom | src/pyhaywoodcc/utils.py:206 | Joining the pieces of a split of a suffix gives the suffix back. |
| Text.JoinSplit | src/pyhaywoodcc/utils.py:206 | `d.join(s.split(d)) == s` for every string and non-empty delimiter. |
| Text.SplitJoinFrom | src/pyhaywoodcc/utils.py:106 | Splitting a suffix that is a join gives back the joined pieces, when every piece is separable: no occurrence of the delimiter starts inside the piece followed by the delimiter. |
| Text.SplitJoin | src/pyhaywoodcc/utils.py:106 | `d.join(parts).split(d) == parts` when every piece is separable in that sense. For ", " this means that no piece contains ", " (Text.SeparableCommaSpace). For a delimiter that overlaps itself it is stronger than not containing it: `"aa".join(["a", "b"])` is "aaab", which splits to "" and "ab". |
| Text.SeparableCommaSpace | src/pyhaywoodcc/utils.py:146 | For ", ", a piece is separable iff it does not contain ", ". |
| Sentinel.RestoreSplits | src/pyhaywoodcc/utils.py:107-108 | When every token is separable for the delimiter: a collapsed cell is null iff it stands for a single null, and otherwise it splits into one piece per token, in order, with "" where a null was. |
| Sentinel.StandsForNullAlone | src/pyhaywoodcc/utils.py:107 | With a non-empty delimiter, a collapsed cell is restored to null iff it comes from a single null. |
| Sentinel.RestoreNullIffSentinel | src/pyhaywoodcc/utils.py:83-108 | For a cell that had a null, the restored cell is null iff the joined, filled string is exactly the fill string. |
| Sentinel.EmptyDelimiterCells | src/pyhaywoodcc/utils.py:105-108 | With the empty delimiter, a null among empty values joins to the bare fill string and is restored to null. Two nulls give "", and A with a null gives "A". |
| Sentinel.DocExampleCells | src/pyhaywoodcc/utils.py:36-49 | The two cells of the documented result: values A, B, C give "A, B, C", and values 1, 2, 3 give "1, 2, 3". |
| Sentinel.NullVersusEmptyCells | src/pyhaywoodcc/utils.py:90 | [FED, null] gives "FED, ". [null, FED] gives ", FED". [null, null] gives ", ". A lone null gives null. |
| ForwardFill.LastValueNearest | src/pyhaywoodcc/utils.py:89 | The carried value is null iff every cell so far is null. Otherwise it is a cell with only nulls below it. |
| ForwardFill.ColumnOf | src/pyhaywoodcc/utils.py:89 | A column has one cell per row. |
| ForwardFill.FilledKeys | src/pyhaywoodcc/utils.py:89 | The carried values cover exactly the key columns. |
| ForwardFill.FillDown | src/pyhaywoodcc/utils.py:89 | Forward filling keeps the number of rows. |
| ForwardFill.Carry | src/pyhaywoodcc/utils.py:89 | One step of the scan keeps one carried value per key column. |
| ForwardFill.CarryStep | src/pyhaywoodcc/utils.py:89 | Carrying past row i the values carried from the rows above gives the filled keys of row i, and filled row i is row i with those keys. |
| ForwardFill.FillDownKeys | src/pyhaywoodcc/utils.py:89 | The in-place scan leaves the array equal to the forward fill of its old contents. |
| ForwardFill.FillDownKeepsOthers | src/pyhaywoodcc/utils.py:89 | The fill keeps every row's columns and every non-key cell. |
| ForwardFill.FillDownNearest | src/pyhaywoodcc/utils.py:89 | A filled key is null iff its column is null from the top down to that row. Otherwise it is the nearest non-null cell at or above the row. |
| ForwardFill.FillDownFromKeyedTop | src/pyhaywoodcc/utils.py:86-89 | When the first row has every key, no filled key is null. |
| ForwardFill.FillDownFromTop | src/pyhaywoodcc/utils.py:89 | When later rows leave a key null or repeat the first row's, the fill copies the first row's key down the whole column. |
| Collapse.Groups | src/pyhaywoodcc/utils.py:112-128 | The groups collapsed are each association in order, then each independent column alone. |
| Collapse.GroupsColumn | src/pyhaywoodcc/utils.py:122-125 | The group of independent column j is `[cols[j]]`. |
| Collapse.Restricted | src/pyhaywoodcc/utils.py:86 | After restricting to keys plus group and dropping all-null rows, each row holds exactly the key and group columns. |
| Collapse.DistinctKeys | src/pyhaywoodcc/utils.py:105 | The group keys are distinct. A key is listed iff some row carries it. |
| Collapse.TokensOf | src/pyhaywoodcc/utils.py:90 | A column yields one token per row. |
| Collapse.AggregateRow | src/pyhaywoodcc/utils.py:105-106 | One output row per key holds exactly the key and group columns. |
| Collapse.Aggregate | src/pyhaywoodcc/utils.py:105-109 | Every aggregated row holds exactly the key and group columns. |
| Collapse.Filled | src/pyhaywoodcc/utils.py:89 | The filled rows hold the key and group columns. |
| Collapse.FilledColumns | src/pyhaywoodcc/utils.py:89 | Forward filling keeps the columns rows already hold. |
| Collapse.Processed | src/pyhaywoodcc/utils.py:104-109 | `_process_list` returns the key columns then the group columns, and every row holds them. |
| Collapse.ProcessList | src/pyhaywoodcc/utils.py:70-109 | Restricting, dropping, forward filling in place on an array, then aggregating gives `Processed`. |
| Collapse.AggregateRowKey | src/pyhaywoodcc/utils.py:105 | The row of a group of same-key rows carries that key. |
| Collapse.AggregateRowCell | src/pyhaywoodcc/utils.py:106-108 | A group column's cell is the column's tokens down the group, in row order, joined and restored. |
| Collapse.AggregateKeys | src/pyhaywoodcc/utils.py:105 | The aggregate has one row per distinct key, in key order, and its keys are unique. |
| Collapse.ProcessedUniqueKeys | src/pyhaywoodcc/utils.py:105 | A group's output is unique by key, so merging it neither drops nor duplicates rows. |
| Collapse.AggregateAt | src/pyhaywoodcc/utils.py:105-106 | Aggregate row i is the row of all input rows with the i-th distinct key. |
| Collapse.AggregateHasKey | src/pyhaywoodcc/utils.py:105 | A key carried by an input row is found in the aggregate. |
| Collapse.AggregateKeyFrom | src/pyhaywoodcc/utils.py:105 | A key found in the aggregate is carried by some input row. |
| Collapse.AggregateFinds | src/pyhaywoodcc/utils.py:105 | A key is found in the aggregate iff some input row carries it. |
| Collapse.AggregateFound | src/pyhaywoodcc/utils.py:105-106 | The row found for a key is the aggregate of exactly the input rows with that key. |
| Collapse.ProcessedCell | src/pyhaywoodcc/utils.py:105-108 | For key k, a group column's cell lists that column's values from the filled rows with key k, in original row order, joined and restored. It is missing iff no row has k. |
| Collapse.ProcessedKeysFilled | src/pyhaywoodcc/utils.py:86-89 | When the first retained row has every key, no output key of the group is null. |
| Collapse.FlattenMember | src/pyhaywoodcc/utils.py:57 | A column of some association is among the association columns. |
| Collapse.FlattenWithin | src/pyhaywoodcc/utils.py:57 | The association columns are within any set that holds every group's columns. |
| Collapse.GroupOf | src/pyhaywoodcc/utils.py:57 | Every collapsed column belongs to a group that names it. |
| Collapse.GroupOfNames | src/pyhaywoodcc/utils.py:113-128 | With disjoint groups, a column's group is the one that names it. |
| Collapse.KeysOutsideGroups | src/pyhaywoodcc/utils.py:67 | No key is collapsed, and every collapsed column is a column of the input. |
| Collapse.BuiltWithin | src/pyhaywoodcc/utils.py:113-131 | The columns built so far run from keys-plus-unused up to the input's columns. After every group they are exactly the input's columns. |
| Collapse.BaseRows | src/pyhaywoodcc/utils.py:67-68 | Every base row holds exactly the keys and unused columns. |
| Collapse.CollapsedRow | src/pyhaywoodcc/utils.py:119-131 | An output row holds exactly the input's columns. |
| Collapse.Collapse | src/pyhaywoodcc/utils.py:131 | The result has exactly the input's columns in the input's order, and one row per non-all-null base row. |
| Collapse.Partial | src/pyhaywoodcc/utils.py:113-128 | After m groups the result has the columns built so far and one row per base row. |
| Collapse.CollapsedRowKeeps | src/pyhaywoodcc/utils.py:68 | An output row keeps the key and unused cells of its base row. |
| Collapse.CollapsedRowBase | src/pyhaywoodcc/utils.py:68 | An output row restricted to keys plus unused columns is its base row. |
| Collapse.CollapseStart | src/pyhaywoodcc/utils.py:67-68 | The base table is the result before any group is merged in. |
| Collapse.BuiltKey | src/pyhaywoodcc/utils.py:119 | A partially built row carries its base row's key. |
| Collapse.CollapsedRowGroup | src/pyhaywoodcc/utils.py:119 | A collapsed column of an output row holds its group's cell for the row's key, or null when the group has no row for that key. |
| Collapse.StepRow | src/pyhaywoodcc/utils.py:119 | Merging group m into one partial row adds exactly that group's cells. |
| Collapse.BuiltStep | src/pyhaywoodcc/utils.py:128 | Group m adds its columns after those built so far. |
| Collapse.StepRows | src/pyhaywoodcc/utils.py:119 | Merging group m row by row gives the partial result after m + 1 groups. |
| Collapse.CollapseStep | src/pyhaywoodcc/utils.py:113-128 | Each loop iteration's merge takes the result after m groups to the result after m + 1. |
| Collapse.CollapseFinish | src/pyhaywoodcc/utils.py:131 | Selecting the input's columns after the last group gives the collapsed table. |
| Collapse.MvToDelim | src/pyhaywoodcc/utils.py:18-131 | The two merge loops followed by the column selection compute `Collapse`. |
| Collapse.MvToCommas | src/pyhaywoodcc/utils.py:134-146 | `mv_to_commas` is the collapse with ", ". |
| Expand.ExplodeCell | src/pyhaywoodcc/utils.py:206-207 | Every cell explodes to at least one row. |
| Expand.Values | src/pyhaywoodcc/utils.py:206 | There is one string per exploded cell. |
| Expand.ExplodeCellJoins | src/pyhaywoodcc/utils.py:206-207 | A cell explodes to a single null iff it is null. A string's pieces are strings that join back to it, with no trimming. |
| Expand.ExplodeRestored | src/pyhaywoodcc/utils.py:106-108 | When every token is separable for the delimiter, a collapsed cell explodes back to one cell per token, in order, with "" for a null. A single-null cell gives one null. |
| Expand.ExplodeRow | src/pyhaywoodcc/utils.py:203-211 | A row explodes to one row per piece of its cell. |
| Expand.Blocks | src/pyhaywoodcc/utils.py:203-211 | There is one block of exploded rows per input row. |
| Expand.ExplodedKeys | src/pyhaywoodcc/utils.py:210 | Every exploded row holds exactly the keys and the exploded column. |
| Expand.ExplodedRow | src/pyhaywoodcc/utils.py:210 | The same for the row at position q. |
| Expand.ExplodedAt | src/pyhaywoodcc/utils.py:207-210 | Piece j of input row i sits right after the pieces of the rows above it, and carries row i's key. |
| Expand.ExplodedOwner | src/pyhaywoodcc/utils.py:207 | Every exploded row is piece j of some input row i. |
| Expand.Assigned | src/pyhaywoodcc/utils.py:216 | Positional assignment keeps the accumulator's number of rows. |
| Expand.AssignColumn | src/pyhaywoodcc/utils.py:216 | The in-place assignment leaves each row with the source cell at its own position, or null past the source's end. |
| Expand.ConfigExplodable | src/pyhaywoodcc/utils.py:204-205 | Every expanded column can be exploded. Keys and columns are disjoint. The configuration holds iff there is a key. |
| Expand.PrefixElems | src/pyhaywoodcc/utils.py:200 | The columns laid on so far grow one at a time within `cols`. |
| Expand.Build | src/pyhaywoodcc/utils.py:213-216 | The accumulator always has one row per exploded row of the first column. |
| Expand.BuildRowFirstKeys | src/pyhaywoodcc/utils.py:214 | After the first column a row holds the keys and that column. |
| Expand.BuildRowKeys | src/pyhaywoodcc/utils.py:213-216 | Row q of the accumulator holds exactly the keys and the columns laid on so far. |
| Expand.BuildRowNextKeys | src/pyhaywoodcc/utils.py:216 | Laying on a column adds exactly that column. |
| Expand.BuildRowKeyCells | src/pyhaywoodcc/utils.py:214-216 | Assignments never change the key cells. Those come from the first column's rows. |
| Expand.BuildRowColCells | src/pyhaywoodcc/utils.py:216 | Cell `cols[m]` of row q is the cell at position q of `cols[m]`'s exploded rows, or null past their end. |
| Expand.BuildKey | src/pyhaywoodcc/utils.py:214-216 | Accumulator row q carries the key of the first column's row q. |
| Expand.BuildColumns | src/pyhaywoodcc/utils.py:216 | After every column, each accumulator row holds the keys and every expanded column. |
| Expand.BuildFirst | src/pyhaywoodcc/utils.py:213-214 | The first column's exploded rows start the accumulator. |
| Expand.BuildStep | src/pyhaywoodcc/utils.py:215-216 | Each later column is a positional assignment onto the accumulator. |
| Expand.ExpandColumns | src/pyhaywoodcc/utils.py:195 | Keys, untouched and expanded columns together are exactly the input's columns. |
| Expand.Base | src/pyhaywoodcc/utils.py:196 | `result_df` has the keys then the untouched columns, and one row per input row. No rows are dropped. |
| Expand.BaseColumns | src/pyhaywoodcc/utils.py:196 | Every `result_df` row holds those columns. |
| Expand.Merged | src/pyhaywoodcc/utils.py:218 | The merge has the keys, the untouched columns, then the expanded columns. |
| Expand.MergedColumns | src/pyhaywoodcc/utils.py:218 | Every merged row holds every input column. |
| Expand.Expanded | src/pyhaywoodcc/utils.py:223 | The result has exactly the input's columns in the input's order. |
| Expand.ExpandedShape | src/pyhaywoodcc/utils.py:191 | The result is a well-formed table over the input's columns. |
| Expand.DelimToMv | src/pyhaywoodcc/utils.py:149-223 | Explode, assign in place column by column, merge and select compute `Expanded`, whatever `fill` is. |
| Expand.CommasToMv | src/pyhaywoodcc/utils.py:226-238 | `commas_to_mv` is the expand engine with ", ". |
| Expand.Pieces | src/pyhaywoodcc/utils.py:207 | There is one block of pieces per input row. |
| Expand.BuildOwner | src/pyhaywoodcc/utils.py:207 | Every accumulator row is piece j of some input row i. |
| Expand.BuildKeyAt | src/pyhaywoodcc/utils.py:210 | The accumulator rows exploded from row i carry row i's key. |
| Expand.BuildMatching | src/pyhaywoodcc/utils.py:218 | With unique keys, the accumulator rows with row i's key are exactly row i's pieces, in order. |
| Expand.BaseKey | src/pyhaywoodcc/utils.py:196 | `result_df` row i is input row i restricted to keys and untouched columns, with the same key. |
| Expand.BaseMatching | src/pyhaywoodcc/utils.py:218 | With unique keys, `result_df` row i matches exactly its own pieces, and there is at least one. |
| Expand.JoinedBlock | src/pyhaywoodcc/utils.py:218 | With unique keys, `result_df` row i merges to one row per piece of its first column. |
| Expand.JoinedBlockRow | src/pyhaywoodcc/utils.py:218 | With unique keys, merged row j of input row i is its `result_df` row plus the expanded cells of accumulator row Start(i) + j. |
| Expand.JoinedLengths | src/pyhaywoodcc/utils.py:218 | With unique keys, each input row's merged block is as long as its first column's pieces. |
| Expand.JoinedStart | src/pyhaywoodcc/utils.py:218 | With unique keys, the merged block of row i starts where row i's accumulator rows start. |
| Expand.MergedCount | src/pyhaywoodcc/utils.py:218 | With unique keys, the merge has one row per exploded piece of the first column. |
| Expand.JoinedRows | src/pyhaywoodcc/utils.py:218 | There is one merged block per `result_df` row. |
| Expand.MergedRows | src/pyhaywoodcc/utils.py:218 | The merge is the concatenation of the blocks. |
| Expand.MergedAt | src/pyhaywoodcc/utils.py:218 | With unique keys, merge row Start(i) + j is input row i's `result_df` row plus the expanded cells of accumulator row Start(i) + j. |
| Expand.ExpandedCount | src/pyhaywoodcc/utils.py:207-223 | With unique keys, the result has one row per piece of the first expanded column, and a null cell counts as one piece. |
| Expand.ExpandedOwner | src/pyhaywoodcc/utils.py:207-223 | With unique keys, every result row is piece j of input row i. |
| Expand.ExpandedKeeps | src/pyhaywoodcc/utils.py:196 | With unique keys, every key and untouched cell of input row i is copied onto each of its rows. |
| Expand.ExpandedTakes | src/pyhaywoodcc/utils.py:216 | With unique keys, expanded column m of result row q is the cell at position q of that column's exploded rows, or null past their end. This is alignment by position only. |
| Expand.ExplodedAligned | src/pyhaywoodcc/utils.py:216 | When every row up to i splits a column into as many pieces as the first column, position Start(i) + j of that column is piece j of row i. |
| Expand.AlignedCell | src/pyhaywoodcc/utils.py:216 | The same, stated on the table. |
| Expand.ExpandedAligned | src/pyhaywoodcc/utils.py:213-223 | With unique keys, when row i and the rows above it split column m as the first column does, result row Start(i) + j holds piece j of row i's cell. |
| EmptyAccumulator.ExplodedNoRows | src/pyhaywoodcc/utils.py:203-211 | With no input rows, every exploded frame is empty. |
| EmptyAccumulator.ExplodedSomeRows | src/pyhaywoodcc/utils.py:203-211 | With an input row, the first column explodes to at least one row. |
| EmptyAccumulator.BuildAsWrittenNoRows | src/pyhaywoodcc/utils.py:213-214 | As written, with no input rows the accumulator is the keys plus only the last column laid on. |
| EmptyAccumulator.BuildAsWrittenAgrees | src/pyhaywoodcc/utils.py:213-216 | As written, with an input row the accumulator after n columns is the keys and the first n columns over `Build`. |
| EmptyAccumulator.BuildAsWrittenLater | src/pyhaywoodcc/utils.py:215-216 | The step of the same past the first column. |
| EmptyAccumulator.BuildAsWrittenColumns | src/pyhaywoodcc/utils.py:218 | The accumulator as written holds its own columns, keys included. |
| EmptyAccumulator.ExpandAsWrittenSelect | src/pyhaywoodcc/utils.py:223 | When the merge as written has every input column, every merged row holds them. |
| EmptyAccumulator.BuildAsWrittenFull | src/pyhaywoodcc/utils.py:213-216 | With an input row, or a single column, the accumulator as written is the model's. |
| EmptyAccumulator.ExpandAsWrittenAgrees | src/pyhaywoodcc/utils.py:213-223 | With an input row, or a single column, the code as written returns `Expanded`. |
| EmptyAccumulator.ExpandAsWrittenNoRowsFails | src/pyhaywoodcc/utils.py:213-223 | With no input rows and two or more columns, the code as written fails: the selection lacks the first expanded column. |
| EmptyAccumulator.ExpandedNoRows | src/pyhaywoodcc/utils.py:223 | Intended: no input rows give an empty table over the input's columns. |
| RoundTrip.Contributing | src/pyhaywoodcc/utils.py:86-89 | The filled rows that carry a key hold the key and group columns. |
| RoundTrip.TokensExplode | src/pyhaywoodcc/utils.py:106-108 | Tokens joined, restored and exploded give one cell per row, in order. |
| RoundTrip.GroupCellExplodes | src/pyhaywoodcc/utils.py:105-108 | When every value is separable (for ", ": contains no ", "), expanding a collapsed cell gives one cell per contributing row, in row order. A value comes back as itself. A null comes back as "", or as null when it was the key's only row. |
| RoundTrip.AssociationTokenCounts | src/pyhaywoodcc/utils.py:113-116 | When every value is separable (for ", ": contains no ", "), all columns of an association give a key the same number of pieces. |
| RoundTrip.ThreeSplit | src/pyhaywoodcc/utils.py:206 | Three one-character values joined with ", " split back to those values. |
| RoundTrip.OneRowConfig | src/pyhaywoodcc/utils.py:149-155 | A one-row, one-key, two-column table is a valid expand input with unique keys. |
| RoundTrip.OneRowPieces | src/pyhaywoodcc/utils.py:207 | The one row's pieces come first, as many as each cell splits into. |
| RoundTrip.OneRowKey | src/pyhaywoodcc/utils.py:196 | Every row of the result carries the one key. |
| RoundTrip.OneRowCell | src/pyhaywoodcc/utils.py:216 | With equal piece counts, column m of result row j is piece j of that column's cell. |
| RoundTrip.OneRowAt | src/pyhaywoodcc/utils.py:213-223 | With equal piece counts, result row j is the key plus piece j of each cell. |
| RoundTrip.OneRowExpands | src/pyhaywoodcc/utils.py:167-180 | With equal piece counts, the result has one row per piece, pairing the pieces by position. |
| RoundTrip.ThreeRowsExpand | src/pyhaywoodcc/utils.py:167-180 | Three-and-three one-character values give three aligned rows. |
| RoundTrip.DocExampleExpands | src/pyhaywoodcc/utils.py:167-180 | The documented example: "A, B, C" and "1, 2, 3" on one key give rows (A, 1), (B, 2), (C, 3), each with the key. |
| RoundTrip.DocExampleRoundTrip | src/pyhaywoodcc/utils.py:36-49 | The documented input with the key on its first row only, collapsed and expanded back, gives its three rows in order, each now carrying the key 001. |
| KeyLayout.ValuedRowsKept | src/pyhaywoodcc/utils.py:86 | When every row has a value in the group, `dropna` keeps every row of the group. |
| KeyLayout.RecordFilledKeys | src/pyhaywoodcc/utils.py:89 | When every row has a value in the group, for one record the fill keeps every row and gives every row of the group the first row's key. |
| KeyLayout.ValuedFilledGroup | src/pyhaywoodcc/utils.py:86-89 | When every row has a value in the group, the filled rows keep the group's cells of the input rows, in order. |
| KeyLayout.RecordFilledMatch | src/pyhaywoodcc/utils.py:89-105 | When every row has a value in the group, for one record every filled row of the group is grouped under the first row's key. |
| KeyLayout.RecordGroupCell | src/pyhaywoodcc/utils.py:86-108 | For one record whose every row has a value in the group, the collapsed cell of a group column is that column's values down all the rows, in order, joined and restored. |
| KeyLayout.OutsideBaseCollapsed | src/pyhaywoodcc/utils.py:67 | A column that is neither a key nor unused is collapsed. |
| KeyLayout.RecordRow | src/pyhaywoodcc/utils.py:113-131 | For one record whose every row has a value in every group, an output row whose base row carries the record's key keeps its base cells in the key and unused columns, and holds in every collapsed column that column's values down all the rows, joined and restored. |
| KeyLayout.SparseBase | src/pyhaywoodcc/utils.py:65-68 | With the key on the first row only and every unused column null on later rows, the base keeps the first row alone, on the key and unused columns. |
| KeyLayout.DenseBase | src/pyhaywoodcc/utils.py:67-68 | With the key repeated on every row, the base keeps every row, each on the key and unused columns and carrying the first row's key. |
| KeyLayout.SparseKeyCollapses | src/pyhaywoodcc/utils.py:65-131 | With the key on the first row only, every unused column null on later rows, and every row having a value in every group: exactly one output row, with the first row's key and unused cells and each collapsed column's values down all the rows, in order, joined and restored. |
| KeyLayout.DenseBaseEqual | src/pyhaywoodcc/utils.py:67-68 | In the dense layout, a row with the first row's unused cells has the first row's base row. |
| KeyLayout.DenseKeyCollapses | src/pyhaywoodcc/utils.py:67-131 | With the key repeated on every row, and every row having a value in every group: one output row per input row, each with the first row's key, its own unused cells, and the collapsed cells the sparse layout gives. A row with the first row's unused cells collapses to the first output row. |
| KeyLayout.DocConfig | src/pyhaywoodcc/utils.py:44-45 | The documented call, keys `["ID"]` and one association of two columns, is a valid call on the documented input. |
| KeyLayout.DocUnused | src/pyhaywoodcc/utils.py:67 | The documented call leaves no column unused. |
| KeyLayout.DocKeys | src/pyhaywoodcc/utils.py:36-42 | The documented input repeats its key on every row; with the later keys null it is in the sparse layout. |
| KeyLayout.DocTokens | src/pyhaywoodcc/utils.py:90-108 | The documented input's two columns collapse to "A, B, C" and "1, 2, 3". |
| KeyLayout.DocExampleAsWritten | src/pyhaywoodcc/utils.py:36-49 | As written, the documented input collapses to three copies of the documented result row. |
| KeyLayout.DocExampleSparse | src/pyhaywoodcc/utils.py:36-68 | With the key on the first row only, the documented input collapses to exactly the documented result. |

## Left out

- `load_config` (src/pyhaywoodcc/utils.py:13-15) calls into another
  package. The demonstration at the end of utils.py reads and prints data.
  `ipeds.py`, `data.py`, `__init__.py` and the tests are not part of this
  model.
- Delimiter as a pattern: `DataFrame.apply` hands each column to the lambda
  at utils.py:206 as a Series, so the split is `Series.str.split(delim)`.
  pandas reads a pattern whose length is not one as a regular expression.
  The model splits on the delimiter literally. For ", " the two agree,
  because ", " has no regular-expression metacharacter.
- Expand.ExpandConfig: requires a non-empty delimiter as a modelling choice,
  not because pandas raises. pandas compiles `""` to the empty regular
  expression, which splits a string at every position (an empty piece,
  each character, an empty piece) and raises nothing. The expand engine
  with `""` is not modelled.
- Values: a cell is `Option<string>`. Non-string values (numbers, dates)
  are left out; `delim.join` raises on them. Column dtypes are also left
  out. In particular, an all-null column may have a float dtype, and `.str`
  raises on it; the model treats such a column as a column of nulls.
- Sentinel collisions: the sentinel is a token that no real value can
  equal. A real value that equals or contains the fill string is not
  modelled. The collision the source makes on its own is modelled: with the
  empty delimiter, a null among empty values joins to the bare fill string
  and is restored to null (`Sentinel.EmptyDelimiterCells`,
  `Sentinel.RestoreNullIffSentinel`).
- Row order of the groupby: pandas sorts the groups by key. The model lists
  them in order of first appearance. The left merge reorders rows by the
  base table, so the difference does not reach the result.
- Set order: `unused_cols` and `assoc_cols` are built from Python sets.
  The model lists them in table order. The final column selection fixes
  the order either way.
- The row index: results are modelled as row sequences. Index labels are
  not modelled.
- `fill`: the flag has no effect in the source. `Expand.DelimToMv` and
  `Expand.CommasToMv` take it and ignore it.
- Preconditions stand in for the errors pandas raises:
  - at least one key;
  - at least one column to expand;
  - no name both a key and a group column;
  - no column in two groups;
  - every named column present.
- Two further preconditions are modelling choices, because a row is a map
  from column names and cannot hold one name twice: no key named twice
  (`Distinct(keys)` in `Collapse.CollapseConfig`), and no column named
  twice within one group (`Distinct(keys + g)` in `Collapse.GroupConfig`).
  pandas would select the repeated column twice; that case is not
  modelled.
- Expand.ExpandedCount: states the row count only when the input keys are
  unique. With duplicate keys the merge at utils.py:218 is many-to-many.
  `Expand.Expanded` still defines that case through `Tables.LeftJoin`, but
  no lemma describes its rows.
- Expand.ExpandedKeeps, Expand.ExpandedTakes, Expand.ExpandedAligned,
  Expand.ExpandedOwner, Expand.JoinedBlockRow, Expand.JoinedLengths and
  Expand.JoinedStart also assume unique input keys, for the same reason.
- KeyLayout.SparseKeyCollapses, KeyLayout.DenseKeyCollapses,
  KeyLayout.RecordRow, KeyLayout.RecordGroupCell,
  KeyLayout.ValuedFilledGroup, KeyLayout.RecordFilledKeys and
  KeyLayout.RecordFilledMatch: assume that every row of the record has a
  value in every group. When a group has fewer values than the record has
  rows (associations of different lengths), the `dropna` at utils.py:86
  drops the rows where the keys and that group are all null. In the sparse
  layout, the group's cell then lists only the values of the first row and
  the rows that have a value in the group. No lemma states
  that case. The sparse lemmas also assume that every unused column is null
  on the record's later rows. Otherwise those rows stay in the base, as
  `Collapse.BaseRows` defines.
- RoundTrip.GroupCellExplodes: holds only when every collapsed value is
  separable (for ", ": contains no ", "). Another value splits into more
  pieces, which the source does not guard against.
- No lemma states that expanding a collapsed table gives the input back in
  general, because it does not:
  - rows that repeat the key are collapsed and then merged back once per
    base row, so they come back duplicated (`KeyLayout.DenseKeyCollapses`);
  - rows with a null key come back with the key filled in;
  - a null among values comes back as "";
  - a value that is not separable splits into extra pieces.
  The round trip is stated for one cell (`RoundTrip.GroupCellExplodes`) and
  for the documented example (`RoundTrip.DocExampleRoundTrip`).
- Two places where the source's comments and its code disagree; the model
  follows the code:
  - The `dropna(how="all")` in `_process_list` (utils.py:86) and on the
    collapse base (utils.py:68) looks at the key columns as well as the
    others.
  - The comment at utils.py:193-194 says all-null rows are removed from
    the expand engine's `result_df`, but line 196 keeps them.
    `Expand.Base` keeps every input row.
- The collapse base is not forward-filled. A base row with a null key keeps
  the null key. It picks up group cells only from a group whose forward
  fill also left a null key, because merge keys compare null with null as
  equal.

## Findings

| source | as written | input that shows it | evidently intended | confidence | as-written member | corrected member |
|---|---|---|---|---|---|---|
| src/pyhaywoodcc/utils.py:36-49 | The docstring shows three rows that all carry ID 001 collapsing to one row (001, "A, B, C", "1, 2, 3"). The code keeps every row with a key in the base (lines 67-68), and the left merge at line 119 gives each of them the collapsed cells. | The docstring's own table, `keys=["ID"]`, `assoc={"GRP1": ["Col1", "Col2"]}`: three identical rows (001, "A, B, C", "1, 2, 3"). | The docstring's one row. The comment at lines 65-66 shows the code expects the key on the first row of a record only: that input gives exactly the documented row. | not executed; high | KeyLayout.DocExampleAsWritten | KeyLayout.DocExampleSparse |
| src/pyhaywoodcc/utils.py:213-216 | `build_df.empty` is meant to detect the fresh accumulator. It is also true for a frame with columns but no rows, so with an empty input every expanded column's frame replaces the accumulator. Only the last column reaches the merge, and `.loc[:, colnames]` at line 223 raises `KeyError`. | A table with columns ID, Col1, Col2 and no rows, `keys=["ID"]`, `cols=["Col1", "Col2"]`. | An empty result with the input's columns. The first column's exploded frame starts the accumulator and later columns are assigned onto it. | not executed; medium | EmptyAccumulator.ExpandAsWrittenNoRowsFails | EmptyAccumulator.ExpandedNoRows |

For the docstring, the code is right and the example is wrong: the model
keeps the code. `KeyLayout.DenseKeyCollapses` states what an input with a
repeated key gives. `KeyLayout.SparseKeyCollapses` states what a record laid
out as the comment at utils.py:65-66 implies gives: the key and the
single-valued columns on the first row only, as the `ID` and `Index`
columns of the demonstration at utils.py:245-260 are. Both assume that every
row has a value in every group (see "## Left out").

The as-written accumulator is `EmptyAccumulator.BuildAsWritten`, and
`EmptyAccumulator.ExpandAsWritten` is the engine built on it.
`EmptyAccumulator.ExpandAsWrittenAgrees` proves that the two designs agree
whenever there is an input row or only one column to expand.
`Expand.Build` and `Expand.DelimToMv` model the intended accumulator, which
the rest of the model uses.
