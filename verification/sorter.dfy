/** The line sorter: the lines of a file that pass its filter, stably sorted
    by one column compared as strings. The file is given as its sequence of
    lines; writing the result to a temporary file is left out. */
module Sorters {
  import opened Results
  import opened Text
  import opened Operators
  import LineFilters
  import StableSort
  import Const

  datatype Sorter = Sorter(sortKey: int, delimiter: Delimiter, filter: LineFilters.LineFilter)

  /** The filter splits lines on the sorter's own delimiter and its split
      limit is the largest filtered column. */
  ghost predicate Consistent(s: Sorter) {
    s.filter.delimiter == s.delimiter && LineFilters.Valid(s.filter)
  }

  /** new Sorter(path, sortKey, delimiter) as written: the filter is built with
      the no-argument constructor, so it splits on the default delimiter. */
  function NewAsWritten(sortKey: int, delimiter: Delimiter): (s: Sorter)
    ensures s.sortKey == sortKey && s.delimiter == delimiter
    ensures s.filter.predicates == [] && s.filter.delimiter == Const.DefaultDelimiter
  {
    Sorter(sortKey, delimiter, LineFilters.NewDefault())
  }

  /** new Sorter(path, sortKey, delimiter) with the filter splitting on the
      sorter's delimiter; the rest of the model uses this one. */
  function New(sortKey: int, delimiter: Delimiter): (s: Sorter)
    ensures s.sortKey == sortKey && s.delimiter == delimiter
    ensures s.filter.predicates == []
    ensures Consistent(s)
  {
    Sorter(sortKey, delimiter, LineFilters.New(delimiter))
  }

  /** new Sorter(path, sortKey): default delimiter. */
  function NewWithKey(sortKey: int): (s: Sorter)
    ensures s.sortKey == sortKey && s.delimiter == Const.DefaultDelimiter
    ensures s.filter.predicates == [] && Consistent(s)
  {
    New(sortKey, Const.DefaultDelimiter)
  }

  /** new Sorter(path): default sort key and delimiter. */
  function NewDefault(): (s: Sorter)
    ensures s.sortKey == Const.DefaultSortKey && s.delimiter == Const.DefaultDelimiter
    ensures s.filter.predicates == [] && Consistent(s)
  {
    NewWithKey(Const.DefaultSortKey)
  }

  /** With the default delimiter the written constructor and the corrected one agree. */
  lemma AsWrittenAgreesOnDefault(sortKey: int)
    ensures NewAsWritten(sortKey, Const.DefaultDelimiter) == New(sortKey, Const.DefaultDelimiter)
    ensures NewWithKey(sortKey) == NewAsWritten(sortKey, Const.DefaultDelimiter)
  {
  }

  /** filter(column, operand, value): one more predicate on the sorter's filter. */
  function AddFilter(s: Sorter, column: int, op: Operator, value: LineFilters.Value): (r: Sorter)
    ensures r.sortKey == s.sortKey && r.delimiter == s.delimiter
    ensures r.filter.predicates == s.filter.predicates + [LineFilters.Predicate(column, op, value)]
  {
    var g := LineFilters.Add(s.filter, column, op, value);
    assert g.predicates == g.predicates[..|s.filter.predicates|] + [g.predicates[|s.filter.predicates|]];
    Sorter(s.sortKey, s.delimiter, g)
  }

  /** Adding a filter keeps a sorter consistent. */
  lemma AddFilterKeepsConsistent(s: Sorter, column: int, op: Operator, value: LineFilters.Value)
    requires Consistent(s)
    ensures Consistent(AddFilter(s, column, op, value))
  {
    LineFilters.AddKeepsValid(s.filter, column, op, value);
  }

  /** For a consistent sorter the filter judges each line on all of its
      columns split at the sorter's delimiter. */
  lemma ConsistentFilterUsesDelimiter(s: Sorter, line: string)
    requires Consistent(s)
    ensures LineFilters.Matches(s.filter, line) == LineFilters.TestAll(s.filter.predicates, Split(line, s.delimiter))
  {
    LineFilters.ValidCovers(s.filter);
    LineFilters.MatchesFullSplit(s.filter, line);
  }

  /* ---------------------------------------------------------------- */
  /*  The comparator                                                   */
  /* ---------------------------------------------------------------- */

  /** The comparator's column: `line.split(delimiter, sortKey + 2)[sortKey]`,
      or None where that index is out of bounds. A negative key is always out
      of bounds, whatever the limit it turns into. */
  function SortKeyOf(line: string, sortKey: int, d: Delimiter): (r: Option<string>)
    ensures r.Some? <==> 0 <= sortKey < |Split(line, d)|
    ensures r.Some? ==> r.value == Split(line, d)[sortKey]
  {
    if sortKey < 0 then None
    else
      var columns := SplitLimit(line, d, sortKey + 2);
      SplitLimitColumn(line, d, sortKey + 2, sortKey);
      if sortKey < |columns| then Some(columns[sortKey]) else None
  }

  /** The key the comparator compares; only used on lines that have one. */
  function KeyFn(sortKey: int, d: Delimiter): string -> string {
    line => match SortKeyOf(line, sortKey, d)
            case Some(k) => k
            case None => ""
  }

  predicate HasKey(line: string, sortKey: int, d: Delimiter) {
    SortKeyOf(line, sortKey, d).Some?
  }

  /** list.sort with the column comparator. The sort never calls the
      comparator on fewer than two elements; on two or more it compares every
      element at least once, so any line without the column raises. */
  function SortByComparator(lines: seq<string>, sortKey: int, d: Delimiter): (r: Result<seq<string>>)
    ensures r.Success? <==> |lines| < 2 || forall i :: 0 <= i < |lines| ==> HasKey(lines[i], sortKey, d)
    ensures r.Failure? ==> r.error == ColumnMissing
    ensures r.Success? ==> multiset(r.value) == multiset(lines)
  {
    if |lines| >= 2 && exists i :: 0 <= i < |lines| && !HasKey(lines[i], sortKey, d) then
      Failure(ColumnMissing)
    else
      Success(StableSort.Sort(lines, KeyFn(sortKey, d)))
  }

  /** Every line of a sorted list of two or more has the key column, and the
      columns are in non-decreasing String.compareTo order. */
  ghost predicate SortedOnColumn(xs: seq<string>, sortKey: int, d: Delimiter) {
    (forall i :: 0 <= i < |xs| ==> 0 <= sortKey < |Split(xs[i], d)|) &&
    forall i, j :: 0 <= i < j < |xs| ==> Compare(Split(xs[i], d)[sortKey], Split(xs[j], d)[sortKey]) <= 0
  }

  /** A successful sort of two or more lines orders them by the key column,
      and lines with equal keys keep their input order. */
  lemma SortByComparatorOrders(lines: seq<string>, sortKey: int, d: Delimiter)
    requires |lines| >= 2 && SortByComparator(lines, sortKey, d).Success?
    ensures SortedOnColumn(SortByComparator(lines, sortKey, d).value, sortKey, d)
    ensures StableSort.StableFor(SortByComparator(lines, sortKey, d).value, lines, KeyFn(sortKey, d))
  {
    var key := KeyFn(sortKey, d);
    var r := StableSort.Sort(lines, key);
    StableSort.SortSorted(lines, key);
    StableSort.SortStable(lines, key);
    forall i | 0 <= i < |r|
      ensures 0 <= sortKey < |Split(r[i], d)|
    {
      assert r[i] in multiset(lines);
    }
    forall i, j | 0 <= i < j < |r|
      ensures Compare(Split(r[i], d)[sortKey], Split(r[j], d)[sortKey]) <= 0
    {
      assert Compare(key(r[i]), key(r[j])) <= 0;
    }
  }

  /** Any other stable sort by the key column gives the same list. */
  lemma SortByComparatorUnique(lines: seq<string>, sortKey: int, d: Delimiter, ys: seq<string>)
    requires SortByComparator(lines, sortKey, d).Success?
    requires StableSort.SortedBy(ys, KeyFn(sortKey, d)) && StableSort.StableFor(ys, lines, KeyFn(sortKey, d))
    ensures SortByComparator(lines, sortKey, d).value == ys
  {
    StableSort.SortIsTheStableSort(lines, ys, KeyFn(sortKey, d));
  }

  lemma SameMembers(a: seq<string>, b: seq<string>)
    requires multiset(a) == multiset(b)
    ensures forall x :: x in a <==> x in b
  {
    assert forall x :: x in a <==> x in multiset(a);
    assert forall x :: x in b <==> x in multiset(b);
  }

  /** sort(): read the lines the filter keeps, then sort them by the column. */
  function Sort(s: Sorter, lines: seq<string>): (r: Result<seq<string>>)
    ensures r.Success? ==> LineFilters.Keep(s.filter, lines).Success?
    ensures r.Success? ==> forall x :: x in r.value <==> x in lines && LineFilters.Matches(s.filter, x) == Success(true)
    ensures r.Success? ==> multiset(r.value) == multiset(LineFilters.Keep(s.filter, lines).value)
    ensures r.Failure? ==> r.error in {NumberFormat, ColumnMissing}
  {
    LineFilters.KeepMeaning(s.filter, lines);
    var kept :- LineFilters.Keep(s.filter, lines);
    var r := SortByComparator(kept, s.sortKey, s.delimiter);
    if r.Success? then SameMembers(r.value, kept); r else r
  }

  /** A sorted file of two or more lines is in key-column order. */
  lemma SortOrders(s: Sorter, lines: seq<string>)
    requires Sort(s, lines).Success?
    ensures var r := Sort(s, lines).value;
            |r| < 2 || SortedOnColumn(r, s.sortKey, s.delimiter)
  {
    var kept := LineFilters.Keep(s.filter, lines).value;
    assert |Sort(s, lines).value| == |kept| by {
      assert |multiset(Sort(s, lines).value)| == |multiset(kept)|;
    }
    if |kept| >= 2 {
      SortByComparatorOrders(kept, s.sortKey, s.delimiter);
    }
  }

  /* ---------------------------------------------------------------- */
  /*  The filter delimiter                                             */
  /* ---------------------------------------------------------------- */

  /** As written, a sorter with delimiter "," and the filter "column 0 equals
      a" drops the line "a,b": its filter reads column 0 of the line split on
      the default " ", which is the whole line. */
  lemma FilterDelimiterAsWritten()
    ensures LineFilters.Matches(AddFilter(NewAsWritten(0, ","), 0, EQ, LineFilters.StrVal("a")).filter, "a,b")
            == Success(false)
  {
    assert IndexOf("a,b", " ") == None by {
      assert !OccursAt("a,b", " ", 0) && !OccursAt("a,b", " ", 1) && !OccursAt("a,b", " ", 2);
    }
    assert Compare("a,b", "a") == 1 by {
      CompareProperPrefix("a", "a,b");
    }
  }

  /** With the filter on the sorter's delimiter the same line is kept. */
  lemma FilterDelimiterCorrected()
    ensures LineFilters.Matches(AddFilter(New(0, ","), 0, EQ, LineFilters.StrVal("a")).filter, "a,b")
            == Success(true)
  {
    assert "a,b"[0..1] == "a" && "a,b"[1..2] == ",";
    IndexOfIs("a,b", ",", 1);
    assert "a,b"[..1] == "a";
  }
}
