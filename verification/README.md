# Sort-merge equi-join of flat text tables, in Dafny

This project models the core of `com.sample.snippet.ffm`, a small Java
library that joins two whitespace- (or otherwise) delimited text tables:

- `Operator` and `LineFilter` — column predicates (`==`, `>=`, `>`, `<=`, `<`
  against an Integer or a String) evaluated through a bit-mask table on a line
  split no wider than the predicates need;
- `Sorter` — keeps the lines of a file its filter accepts and sorts them
  stably on one column compared with `String.compareTo`;
- `Relation` — reads a sorted file run by run (consecutive lines with the same
  join-key column), keeping one look-ahead line and an end-of-file flag, and
  formats each line for output (explicit column list, or the role's default
  omission set; the right role drops the last character);
- `MergeJoin` — the three-way merge of two relations that emits, for equal
  keys, every left row concatenated with every right row;
- `FlatFileManipulator` — the facade: sort filters, `sort()`,
  `sort(left, right)`, `join()`, the search filter and `search()`;
- `Const` — the package defaults.

Files are sequences of lines; a reader's position is an index into them.
Every Java exception the core can raise is a `Failure` value of
`Results.Error` (`NumberFormat`, `ColumnMissing`, `EmptyRightRow`,
`MissingFormat`, `NotReady`). The supporting module `Text` models the parts of
`java.lang` the core relies on: `String.split` on a literal delimiter with and
without a limit, `String.compareTo` (its sign), and `Integer.decode`.
`StableSort` is the stable sort `List.sort` promises, as insertion sort plus a
proof that any sorted stable arrangement is that one.

The headline results:

- `MergeJoins.JoinIsNestedLoop`: on two files whose lines all parse and whose
  key columns are sorted, the merge join equals the nested-loop equi-join of
  their rows (left-major, right-minor).
- `Relations.DrainIsGroups` / `Relations.RelationRows`: reading a file run by
  run yields its rows cut into maximal runs of equal keys, and the runs
  concatenate back to the rows, each once.
- `Sorters.SortByComparatorOrders` / `Sorters.SortByComparatorUnique` /
  `Sorters.Sort`: the sorter's output holds exactly the lines the filter keeps,
  is ordered on the key column, keeps equal keys in input order, and is the only
  list with those properties.
- `Manipulator.SortThenJoin`: sorting both files with the default sorters and
  then joining gives the nested-loop join of the sorted sides.

A right-hand line with nothing after its first two columns cannot be joined.
Without a format, the right role omits columns 0 and 1
(`Const.DEFAULT_OMIT_RIGHT_JOIN_KEYS`), so a line such as `"001 p"` formats to
an empty row. `sb.replace(-1, 0, "")` then raises
StringIndexOutOfBoundsException. `MergeJoins.KeyOnlyRightLineRaises` proves
that `join(k)` raises `EmptyRightRow` whenever the first right line is such a
line and every left line reads.

## Model

| member | source | states |
|---|---|---|
| Operators.Bit | src/main/java/com/sample/snippet/ffm/Operator.java:18-43 | each operator carries one non-zero single bit below 32 (1, 2, 4, 8, 16) |
| Operators.DistinctBits | src/main/java/com/sample/snippet/ffm/Operator.java:18-22 | two operators share a bit exactly when they are the same operator |
| LineFilters.OutcomeMask | src/main/java/com/sample/snippet/ffm/LineFilter.java:110-117 | a zero outcome selects mask 11, a negative one 24, a positive one 6 |
| LineFilters.Accepts | src/main/java/com/sample/snippet/ffm/LineFilter.java:17-23 | the mask-and-bit test holds exactly when the operator's documented comparison holds of the outcome |
| LineFilters.OutcomeMeaning | src/main/java/com/sample/snippet/ffm/LineFilter.java:96-104 | the outcome is a sign; for an Integer value it fails exactly when the column does not decode and orders the decoded number against the value; for a String value it is 0 on equal strings and negative exactly when the column is lexicographically smaller; otherwise it is 0 |
| LineFilters.TestMeaning | src/main/java/com/sample/snippet/ffm/LineFilter.java:93-121 | one predicate raises ColumnMissing for a column out of range, NumberFormat for a non-numeric column compared with an Integer, and otherwise is true exactly when its operator holds of the outcome |
| LineFilters.TestAllMeaning | src/main/java/com/sample/snippet/ffm/LineFilter.java:93-123 | the predicates' verdict is true exactly when every predicate is true |
| LineFilters.TestAllFirst | src/main/java/com/sample/snippet/ffm/LineFilter.java:93-123 | a verdict other than true is that of the first predicate that is not true, all before it being true |
| LineFilters.New | src/main/java/com/sample/snippet/ffm/LineFilter.java:54-57 | a new filter splits on the given delimiter, has no predicates, a valid split limit, and accepts every line |
| LineFilters.NewDefault | src/main/java/com/sample/snippet/ffm/LineFilter.java:41-43 | the no-argument filter splits on the default blank and accepts every line |
| LineFilters.Add | src/main/java/com/sample/snippet/ffm/LineFilter.java:67-75 | the new predicate goes to the end of the list and the earlier ones stay |
| LineFilters.AddKeepsValid | src/main/java/com/sample/snippet/ffm/LineFilter.java:67-75 | after adding, the split limit is still the running maximum of the columns |
| LineFilters.ValidCovers | src/main/java/com/sample/snippet/ffm/LineFilter.java:72 | the running maximum bounds every registered column |
| LineFilters.TestAllWithinLimit | src/main/java/com/sample/snippet/ffm/LineFilter.java:91-95 | predicates on columns within the limit give the same verdict on the limited split as on the full split |
| LineFilters.MatchesFullSplit | src/main/java/com/sample/snippet/ffm/LineFilter.java:85-124 | the verdict on a line is that of every predicate against the fully split line |
| LineFilters.Matches | src/main/java/com/sample/snippet/ffm/LineFilter.java:86-88 | without predicates every line matches |
| LineFilters.Keep | src/main/java/com/sample/snippet/ffm/Sorter.java:134-149 | the filter pass raises only NumberFormat or ColumnMissing and never returns more lines than it was given |
| LineFilters.KeepMeaning | src/main/java/com/sample/snippet/ffm/Sorter.java:134-149 | the filter pass succeeds exactly when no line raises, and then keeps, in order, exactly the matching lines, each as often as it occurs in the file |
| LineFilters.KeepCounts | src/main/java/com/sample/snippet/ffm/Sorter.java:139-144 | a successful pass holds every matching line as many times as the input does, and no other line |
| LineFilters.KeepFirstFailure | src/main/java/com/sample/snippet/ffm/Sorter.java:139-145 | a failed pass reports what the first raising line raises, every line before it having been judged |
| LineFilters.KeepWithoutPredicates | src/main/java/com/sample/snippet/ffm/LineFilter.java:86-88 | a filter without predicates keeps every line |
| Sorters.New | src/main/java/com/sample/snippet/ffm/Sorter.java:77-82 | the sorter keeps its key and delimiter and its empty filter splits on the sorter's delimiter (corrected, see Findings) |
| Sorters.NewAsWritten | src/main/java/com/sample/snippet/ffm/Sorter.java:77-82 | as written, the empty filter splits on the default delimiter whatever the sorter's delimiter |
| Sorters.NewWithKey | src/main/java/com/sample/snippet/ffm/Sorter.java:60-62 | the two-argument sorter keeps its key, uses the default blank, and its empty filter splits on that same delimiter |
| Sorters.NewDefault | src/main/java/com/sample/snippet/ffm/Sorter.java:44-46 | sort key 1, delimiter a blank, no predicates |
| Sorters.AddFilter | src/main/java/com/sample/snippet/ffm/Sorter.java:118-122 | the predicate is appended to the sorter's filter; key and delimiter stay |
| Sorters.AddFilterKeepsConsistent | src/main/java/com/sample/snippet/ffm/Sorter.java:118-122 | adding a predicate keeps the filter on the sorter's delimiter with a valid split limit |
| Sorters.ConsistentFilterUsesDelimiter | src/main/java/com/sample/snippet/ffm/Sorter.java:140 | a consistent sorter's filter judges each line on its columns split at the sorter's delimiter |
| Sorters.SortKeyOf | src/main/java/com/sample/snippet/ffm/Sorter.java:211-212 | the comparator's column exists exactly when the fully split line has it, and is that column |
| Sorters.SortByComparator | src/main/java/com/sample/snippet/ffm/Sorter.java:206-220 | the sort fails, with ColumnMissing, exactly when two or more lines are sorted and one lacks the key column; it permutes the lines |
| Sorters.SortByComparatorOrders | src/main/java/com/sample/snippet/ffm/Sorter.java:206-220 | a sorted list of two or more lines is in non-decreasing key-column order and keeps lines with equal keys in input order |
| Sorters.SortByComparatorUnique | src/main/java/com/sample/snippet/ffm/Sorter.java:206-220 | any other sorted, stable arrangement of the lines is the same list |
| Sorters.Sort | src/main/java/com/sample/snippet/ffm/Sorter.java:160-165 | the result holds exactly the lines in the file the filter accepts, as a permutation of the kept lines; failures are NumberFormat or ColumnMissing |
| Sorters.SortOrders | src/main/java/com/sample/snippet/ffm/Sorter.java:160-165 | a sorted file of two or more lines is in key-column order |
| Sorters.FilterDelimiterAsWritten | src/main/java/com/sample/snippet/ffm/Sorter.java:81 | with delimiter "," the as-written filter "column 0 equals a" rejects the line "a,b" |
| Sorters.FilterDelimiterCorrected | src/main/java/com/sample/snippet/ffm/Sorter.java:81 | with the filter on the sorter's delimiter the same line is accepted |
| StableSort.SortSorted | src/main/java/com/sample/snippet/ffm/Sorter.java:207 | the sort is non-decreasing by key |
| StableSort.SortStable | src/main/java/com/sample/snippet/ffm/Sorter.java:207 | for every key, the lines with that key keep their input order |
| StableSort.SortedStableUnique | src/main/java/com/sample/snippet/ffm/Sorter.java:207 | two sorted arrangements that agree on the order within every key are equal |
| StableSort.Sort | src/main/java/com/sample/snippet/ffm/Sorter.java:207 | the sort is a permutation of its input |
| Relations.Open | src/main/java/com/sample/snippet/ffm/Relation.java:141-157 | an empty format raises; otherwise explicit columns exactly when the first entry is not -1, and the role's default omission set ({} left, {0, 1} right) |
| Relations.OpenDefault | src/main/java/com/sample/snippet/ffm/Relation.java:100-102 | every column, the default delimiter, never fails |
| Relations.OpenWithFormat | src/main/java/com/sample/snippet/ffm/Relation.java:120-122 | the default delimiter; fails exactly on an empty format |
| Relations.Pick | src/main/java/com/sample/snippet/ffm/Relation.java:253-257 | the named columns in format order; fails with ColumnMissing exactly when one is out of range |
| Relations.OmitNothing | src/main/java/com/sample/snippet/ffm/Relation.java:258-267 | with nothing to omit every column is kept |
| Relations.OmitFirstTwo | src/main/java/com/sample/snippet/ffm/Relation.java:258-267 | omitting {0, 1} keeps the columns from index 2 on |
| Relations.Terminated | src/main/java/com/sample/snippet/ffm/Relation.java:251-266 | the parts joined with the delimiter, plus one trailing delimiter; empty for no parts |
| Relations.FormatRow | src/main/java/com/sample/snippet/ffm/Relation.java:249-274 | a projection error is passed on; formatting raises only ColumnMissing or EmptyRightRow |
| Relations.FormatRight | src/main/java/com/sample/snippet/ffm/Relation.java:269-271 | a right row with a one-character delimiter is its columns joined, and raises when there are none |
| Relations.DefaultProjection | src/main/java/com/sample/snippet/ffm/Relation.java:152-156 | without a format the left role keeps every column and the right role drops the first two |
| Relations.KeyOf | src/main/java/com/sample/snippet/ffm/Relation.java:208-209 | a negative key column is never present; a present key is that column of the fully split line |
| Relations.RowOf | src/main/java/com/sample/snippet/ffm/Relation.java:208-217 | a line without its key column raises ColumnMissing; a row carries the line's unformatted key column |
| Relations.RowsOfIndex | src/main/java/com/sample/snippet/ffm/Relation.java:208-219 | row i is the row of line i |
| Relations.RunLen | src/main/java/com/sample/snippet/ffm/Relation.java:211-214 | the run is the longest prefix with the key |
| Relations.FlattenGroups | src/main/java/com/sample/snippet/ffm/Relation.java:196-214 | the runs concatenate back to the rows, each once, in order |
| Relations.GroupsShape | src/main/java/com/sample/snippet/ffm/Relation.java:208-221 | every row of a run has the run's key and neighbouring runs have different keys |
| Relations.Start | src/main/java/com/sample/snippet/ffm/Relation.java:141-150 | a newly opened reader is not at end of file, has an empty run, and has every line of the file still to read |
| Relations.Collect | src/main/java/com/sample/snippet/ffm/Relation.java:193-222 | the loop of advance: no line is lost or duplicated, it adds at least one row when it starts a run, and ends at end of file exactly when no line is left |
| Relations.CollectStep | src/main/java/com/sample/snippet/ffm/Relation.java:196-221 | a line with another key is put back as the look-ahead; otherwise its row joins the run |
| Relations.Advance | src/main/java/com/sample/snippet/ffm/Relation.java:184-225 | advance reports true exactly when the run is non-empty, exactly when lines were left; it reports false at end of file |
| Relations.AdvanceAfterEnd | src/main/java/com/sample/snippet/ffm/Relation.java:187-190 | once advance reports false, advancing again changes nothing |
| Relations.AdvanceGroups | src/main/java/com/sample/snippet/ffm/Relation.java:184-225 | on lines that parse, advance delivers the first run of the rows and leaves the remaining runs |
| Relations.DrainIsGroups | src/main/java/com/sample/snippet/ffm/Relation.java:184-225 | advancing until false yields the rows cut into maximal runs of equal keys |
| Relations.RelationRows | src/main/java/com/sample/snippet/ffm/Relation.java:184-225 | reading a file to the end yields its rows, in order, each once |
| Relations.CollectConsumes | src/main/java/com/sample/snippet/ffm/Relation.java:193-222 | a successful loop consumed exactly its run's lines, and all of them parse |
| Relations.DrainFails | src/main/java/com/sample/snippet/ffm/Relation.java:208-216 | reading fails when some pending line does not parse |
| Relations.DrainSucceedsIffAllParse | src/main/java/com/sample/snippet/ffm/Relation.java:184-225 | reading a file to the end succeeds exactly when every line has its key column and formats |
| MergeJoins.MatchingMembers | src/main/java/com/sample/snippet/ffm/MergeJoin.java:185-195 | a left row's output is exactly its concatenations with right rows of the same key |
| MergeJoins.NestedLoopMembers | src/main/java/com/sample/snippet/ffm/MergeJoin.java:175-205 | the reference join holds exactly the concatenations of a left and a right row with equal keys |
| MergeJoins.Product | src/main/java/com/sample/snippet/ffm/MergeJoin.java:183-195 | equal runs give |L| x |R| lines |
| MergeJoins.ProductIsNestedLoop | src/main/java/com/sample/snippet/ffm/MergeJoin.java:185-195 | on runs with one key the left-major product is the nested-loop join |
| MergeJoins.NestedLoopAppendLeft | src/main/java/com/sample/snippet/ffm/MergeJoin.java:185-195 | the reference join splits along the left rows |
| MergeJoins.NestedLoopDropRight | src/main/java/com/sample/snippet/ffm/MergeJoin.java:198-204 | right rows whose keys no left row has contribute nothing |
| MergeJoins.MergeLoop | src/main/java/com/sample/snippet/ffm/MergeJoin.java:175-205 | the merge loop raises only ColumnMissing or EmptyRightRow |
| MergeJoins.MergeRunsCons | src/main/java/com/sample/snippet/ffm/MergeJoin.java:179-204 | equal keys emit the product and move both sides; a smaller left key moves the left side; a larger one the right side |
| MergeJoins.MergeLoopEqual | src/main/java/com/sample/snippet/ffm/MergeJoin.java:181-197 | on equal keys the loop emits the product and then continues from both advanced sides, or stops when one is exhausted |
| MergeJoins.MergeLoopIsMergeRuns | src/main/java/com/sample/snippet/ffm/MergeJoin.java:175-205 | on lines that parse, the loop over readers merges their current and remaining runs |
| MergeJoins.FirstRun | src/main/java/com/sample/snippet/ffm/Relation.java:196-214 | in sorted rows the first run is followed only by larger keys |
| MergeJoins.MergeRunsIsNestedLoop | src/main/java/com/sample/snippet/ffm/MergeJoin.java:175-211 | merging the runs of two key-sorted row sequences gives their nested-loop join |
| MergeJoins.Join | src/main/java/com/sample/snippet/ffm/MergeJoin.java:150-212 | an empty left format raises, then an empty right format; otherwise only ColumnMissing or EmptyRightRow |
| MergeJoins.JoinIsNestedLoop | src/main/java/com/sample/snippet/ffm/MergeJoin.java:150-212 | on files that parse and are sorted on the key, the join is the nested-loop equi-join of their rows |
| MergeJoins.JoinDefault | src/main/java/com/sample/snippet/ffm/MergeJoin.java:65-72 | join() cannot fail for want of a format |
| MergeJoins.JoinOnKey | src/main/java/com/sample/snippet/ffm/MergeJoin.java:91-98 | join(k) cannot fail for want of a format |
| MergeJoins.JoinWithFormat | src/main/java/com/sample/snippet/ffm/MergeJoin.java:117-126 | with non-empty formats only ColumnMissing or EmptyRightRow can be raised |
| MergeJoins.KeyOnlyRightAdvance | src/main/java/com/sample/snippet/ffm/Relation.java:269-271 | a right file whose first line has nothing after the key column fails on its first advance |
| MergeJoins.KeyOnlyRightLineRaises | src/main/java/com/sample/snippet/ffm/MergeJoin.java:91-98 | join(k) on such a right file raises EmptyRightRow whenever the left file reads |
| Manipulator.New | src/main/java/com/sample/snippet/ffm/FlatFileManipulator.java:85-94 | default sorters on the join column, empty filters, nothing sorted or joined |
| Manipulator.LeftSortFilter | src/main/java/com/sample/snippet/ffm/FlatFileManipulator.java:104-112 | the predicate is appended to the left sorter's filter and nothing else changes |
| Manipulator.RightSortFilter | src/main/java/com/sample/snippet/ffm/FlatFileManipulator.java:122-130 | the predicate is appended to the right sorter's filter and nothing else changes |
| Manipulator.SearchFilter | src/main/java/com/sample/snippet/ffm/FlatFileManipulator.java:214-219 | the predicate is appended to the search filter and nothing else changes |
| Manipulator.SortBoth | src/main/java/com/sample/snippet/ffm/FlatFileManipulator.java:141-157 | sort() succeeds exactly when both sorts do, reports a failing left sort first, and changes only the sorted sides |
| Manipulator.SortSides | src/main/java/com/sample/snippet/ffm/FlatFileManipulator.java:170-189 | with both flags clear the sides are the files themselves; only the sorted sides change |
| Manipulator.SortSidesBoth | src/main/java/com/sample/snippet/ffm/FlatFileManipulator.java:173-176 | sort(true, true) is sort() |
| Manipulator.SortSidesChoice | src/main/java/com/sample/snippet/ffm/FlatFileManipulator.java:178-188 | a flagged side holds its sorted lines and an unflagged side its file |
| Manipulator.SortBothOrders | src/main/java/com/sample/snippet/ffm/FlatFileManipulator.java:141-157 | after sort() each side holds exactly the lines its filter accepts, each as often as in its file, ordered on its sort column |
| Manipulator.Join | src/main/java/com/sample/snippet/ffm/FlatFileManipulator.java:197-203 | join before sort fails with NotReady; otherwise only the joined lines change |
| Manipulator.Search | src/main/java/com/sample/snippet/ffm/FlatFileManipulator.java:228-238 | search before join fails with NotReady; the result is the subsequence of the joined lines the filter accepts, each as often as it was joined |
| Manipulator.SearchWithoutFilter | src/main/java/com/sample/snippet/ffm/FlatFileManipulator.java:228-238 | without search conditions every joined line is returned |
| Manipulator.ColumnOrderIsKeyOrder | src/main/java/com/sample/snippet/ffm/Const.java:18-21 | lines sorted on the join column give rows with sorted join keys |
| Manipulator.SortThenJoin | src/main/java/com/sample/snippet/ffm/FlatFileManipulator.java:141-203 | sort() then join() with the default sorters gives the nested-loop join of the sorted sides |
| Text.JoinSplit | src/main/java/com/sample/snippet/ffm/Relation.java:208 | splitting and re-joining a line gives it back |
| Text.SplitJoin | src/main/java/com/sample/snippet/ffm/Relation.java:208 | columns free of a one-character delimiter come back from their joined line |
| Text.SplitLimitColumn | src/main/java/com/sample/snippet/ffm/LineFilter.java:91 | a column below the limit minus one is the same in the limited and the full split |
| Text.SplitNoLimit | src/main/java/com/sample/snippet/ffm/Relation.java:208 | the no-limit split is the full split without its trailing empty columns, or the whole line when there is no delimiter |
| Text.Compare | src/main/java/com/sample/snippet/ffm/Sorter.java:214 | the comparison is a sign and is zero exactly on equal strings |
| Text.CompareIsLexicographic | src/main/java/com/sample/snippet/ffm/Sorter.java:214 | the comparison is negative exactly when the first string is lexicographically smaller |
| Text.CompareTransitive | src/main/java/com/sample/snippet/ffm/Sorter.java:207-217 | the comparator is transitive, as List.sort requires |
| Text.DecodeDecimal | src/main/java/com/sample/snippet/ffm/LineFilter.java:101 | decoding reads back every int printed in decimal |

## Left out

- File I/O: reading files, `sortToFile` with its temporary file, `deleteOnExit` and `Relation.close`. Files are sequences of lines; I/O errors are not modelled.
- The two-thread executor of `sort()` and `Sorter.call`: the two sorts are independent function calls.
- `String.split` is modelled on a literal, non-empty delimiter. Regular-expression delimiters and the empty delimiter are not modelled.
- `Integer.decode` accepts ASCII digits only, not other Unicode digits.
- `String.compareTo` is modelled on `seq<char>` as its sign. The Java method returns a difference of code units; every caller uses only the sign.
- Text.Compare orders Dafny `char`s, which are Unicode scalar values; Java compares UTF-16 code units. The two orders differ only between a supplementary character (above U+FFFF, a surrogate pair in Java) and a character in U+E000..U+FFFF.
- LineFilters.Matches: the split limit `splitLimit + 2` is not wrapped at 32 bits. A column index near `Integer.MAX_VALUE` would overflow in Java.
- Sorters.SortKeyOf: `sortKey + 2` is not wrapped at 32 bits either. A wrapped limit still leaves the column out of range, so the outcome is the same.
- The state of an object after an exception: a failing step returns a `Failure` and no next state.
- StableSort.Sort is insertion sort, not TimSort. `StableSort.SortedStableUnique` shows any sorted, stable arrangement is the same list.
- Sorters.SortByComparator raises when two or more lines are sorted and one lacks the key column. Java raises at the first comparison that reads such a line. Every comparison sort compares every element when it sorts two or more, so the outcome is the same.
- `getConsecutiveRows` is the `group` field of the reader state.
- `Const.SORTED_FILE_PREFIX` and `Const.SORTED_FILE_SUFFIX` name temporary files only.
- A predicate value that is neither an Integer nor a String is `OtherVal`. Its outcome is always 0.
- Manipulator.Join: in Java, join before sort passes null files and fails with NullPointerException. Here that is `NotReady`.
- Manipulator.Search: in Java, search before join iterates a null list. Here that is `NotReady`.

## Findings

| source | as written | input that shows it | evidently intended | confidence | as-written member | corrected member |
|---|---|---|---|---|---|---|
| src/main/java/com/sample/snippet/ffm/Sorter.java:81 | `new Sorter(path, sortKey, delimiter)` builds its filter with `new LineFilter()`, so the filter splits lines on the default blank | a sorter with delimiter ",", filter (column 0, EQ, "a"), and the line "a,b": column 0 under " " is "a,b", so the line is dropped | the filter splits on the sorter's own delimiter (`new LineFilter(delimiter)`), which keeps the line | not executed | Sorters.FilterDelimiterAsWritten | Sorters.FilterDelimiterCorrected |
