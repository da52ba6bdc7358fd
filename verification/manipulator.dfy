/** The front end of FlatFileManipulator.java: two table files, a sorter for
    each, the joined lines and a search filter over them. Each step returns
    the facade's next state; a step whose input an earlier step has not
    produced yet (a null field in Java) fails with NotReady. The two sorts
    that Java runs on two threads are two independent function calls. */
module Manipulator {
  import opened Results
  import opened Text
  import opened Operators
  import Const
  import LineFilters
  import Sorters
  import Relations
  import MergeJoins

  /** The files as their lines, the two sorters, the sorted sides and the
      joined lines once produced, and the search filter. */
  datatype Facade = Facade(leftFile: seq<string>, rightFile: seq<string>,
                           leftSorter: Sorters.Sorter, rightSorter: Sorters.Sorter,
                           leftSorted: Option<seq<string>>, rightSorted: Option<seq<string>>,
                           joined: Option<seq<string>>, searchFilter: LineFilters.LineFilter)

  /** Both sorters sort on the column the default join reads, split the way
      the default join splits. */
  predicate SortsOnJoinKey(m: Facade) {
    && m.leftSorter.sortKey == Const.DefaultJoinKey && m.leftSorter.delimiter == Const.DefaultDelimiter
    && m.rightSorter.sortKey == Const.DefaultJoinKey && m.rightSorter.delimiter == Const.DefaultDelimiter
  }

  /** new FlatFileManipulator(leftPath, rightPath): default sorters, an empty
      search filter, nothing sorted or joined yet. */
  function New(leftFile: seq<string>, rightFile: seq<string>): (m: Facade)
    ensures m.leftFile == leftFile && m.rightFile == rightFile
    ensures m.leftSorted.None? && m.rightSorted.None? && m.joined.None?
    ensures m.leftSorter.filter.predicates == [] && m.rightSorter.filter.predicates == []
    ensures m.searchFilter.predicates == [] && m.searchFilter.delimiter == Const.DefaultDelimiter
    ensures SortsOnJoinKey(m)
  {
    Facade(leftFile, rightFile, Sorters.NewDefault(), Sorters.NewDefault(), None, None, None,
           LineFilters.NewDefault())
  }

  /** leftSortFilter(column, operator, value): one more condition on the left
      sort; nothing else changes. */
  function LeftSortFilter(m: Facade, column: int, op: Operator, value: LineFilters.Value): (r: Facade)
    ensures r.leftSorter.filter.predicates == m.leftSorter.filter.predicates + [LineFilters.Predicate(column, op, value)]
    ensures r.leftSorter.sortKey == m.leftSorter.sortKey && r.leftSorter.delimiter == m.leftSorter.delimiter
    ensures r == m.(leftSorter := r.leftSorter)
    ensures SortsOnJoinKey(m) ==> SortsOnJoinKey(r)
  {
    m.(leftSorter := Sorters.AddFilter(m.leftSorter, column, op, value))
  }

  /** rightSortFilter(column, operator, value): the same for the right sort. */
  function RightSortFilter(m: Facade, column: int, op: Operator, value: LineFilters.Value): (r: Facade)
    ensures r.rightSorter.filter.predicates == m.rightSorter.filter.predicates + [LineFilters.Predicate(column, op, value)]
    ensures r.rightSorter.sortKey == m.rightSorter.sortKey && r.rightSorter.delimiter == m.rightSorter.delimiter
    ensures r == m.(rightSorter := r.rightSorter)
    ensures SortsOnJoinKey(m) ==> SortsOnJoinKey(r)
  {
    m.(rightSorter := Sorters.AddFilter(m.rightSorter, column, op, value))
  }

  /** searchFilter(column, operator, value): one more condition on the search. */
  function SearchFilter(m: Facade, column: int, op: Operator, value: LineFilters.Value): (r: Facade)
    ensures r.searchFilter.predicates == m.searchFilter.predicates + [LineFilters.Predicate(column, op, value)]
    ensures r.searchFilter.delimiter == m.searchFilter.delimiter
    ensures r == m.(searchFilter := r.searchFilter)
  {
    m.(searchFilter := LineFilters.Add(m.searchFilter, column, op, value))
  }

  /** sort(): both sides sorted; the left result is collected first, so a
      failing left sort is the one reported. */
  function SortBoth(m: Facade): (r: Result<Facade>)
    ensures r.Success? <==> Sorters.Sort(m.leftSorter, m.leftFile).Success? &&
                            Sorters.Sort(m.rightSorter, m.rightFile).Success?
    ensures Sorters.Sort(m.leftSorter, m.leftFile).Failure? ==>
              r == Failure(Sorters.Sort(m.leftSorter, m.leftFile).error)
    ensures r.Failure? ==> r.error in {NumberFormat, ColumnMissing}
    ensures r.Success? ==> r.value == m.(leftSorted := r.value.leftSorted, rightSorted := r.value.rightSorted)
  {
    var left :- Sorters.Sort(m.leftSorter, m.leftFile);
    var right :- Sorters.Sort(m.rightSorter, m.rightFile);
    Success(m.(leftSorted := Some(left), rightSorted := Some(right)))
  }

  /** The side sort(bool, bool) produces: the sorted file when asked for,
      otherwise the file itself. */
  function SortSide(s: Sorters.Sorter, file: seq<string>, sortIt: bool): (r: Result<seq<string>>)
    ensures !sortIt ==> r == Success(file)
  {
    if sortIt then Sorters.Sort(s, file) else Success(file)
  }

  /** sort(left, right): sort(true, true) is sort(); otherwise the left side
      first, then the right one, each sorted or taken as it is. */
  function SortSides(m: Facade, left: bool, right: bool): (r: Result<Facade>)
    ensures !left && !right ==> r == Success(m.(leftSorted := Some(m.leftFile), rightSorted := Some(m.rightFile)))
    ensures r.Failure? ==> r.error in {NumberFormat, ColumnMissing}
    ensures r.Success? ==> r.value == m.(leftSorted := r.value.leftSorted, rightSorted := r.value.rightSorted)
    ensures r.Success? ==> r.value.leftSorted.Some? && r.value.rightSorted.Some?
  {
    if left && right then SortBoth(m)
    else
      var l :- SortSide(m.leftSorter, m.leftFile, left);
      var rr :- SortSide(m.rightSorter, m.rightFile, right);
      Success(m.(leftSorted := Some(l), rightSorted := Some(rr)))
  }

  /** Sorting both sides in one call or one side at a time gives the same
      state: sort(true, true) and sort() are the same. */
  lemma SortSidesBoth(m: Facade)
    ensures SortSides(m, true, true) == SortBoth(m)
    ensures var r := SortSides(m, true, true);
            r.Success? ==> r.value.leftSorted == Some(Sorters.Sort(m.leftSorter, m.leftFile).value) &&
                           r.value.rightSorted == Some(Sorters.Sort(m.rightSorter, m.rightFile).value)
  {
  }

  /** Under sort(left, right) a side whose flag is set holds its sorted
      lines, and a side whose flag is clear holds its file as it is. */
  lemma SortSidesChoice(m: Facade, left: bool, right: bool)
    requires SortSides(m, left, right).Success?
    ensures var r := SortSides(m, left, right).value;
            && r.leftSorted == Some(if left then Sorters.Sort(m.leftSorter, m.leftFile).value else m.leftFile)
            && r.rightSorted == Some(if right then Sorters.Sort(m.rightSorter, m.rightFile).value else m.rightFile)
  {
  }

  /** After sort() each side holds exactly the lines its filter keeps, each
      as often as in its file, ordered on the sort column. */
  lemma SortBothOrders(m: Facade)
    requires SortBoth(m).Success?
    ensures var r := SortBoth(m).value;
            && r.leftSorted.Some? && r.rightSorted.Some?
            && (|r.leftSorted.value| < 2 ||
                Sorters.SortedOnColumn(r.leftSorted.value, m.leftSorter.sortKey, m.leftSorter.delimiter))
            && (|r.rightSorted.value| < 2 ||
                Sorters.SortedOnColumn(r.rightSorted.value, m.rightSorter.sortKey, m.rightSorter.delimiter))
            && (forall x :: x in r.leftSorted.value <==>
                  x in m.leftFile && LineFilters.Matches(m.leftSorter.filter, x) == Success(true))
            && (forall x :: x in r.rightSorted.value <==>
                  x in m.rightFile && LineFilters.Matches(m.rightSorter.filter, x) == Success(true))
            && (forall x :: multiset(r.leftSorted.value)[x] ==
                  if LineFilters.Matches(m.leftSorter.filter, x) == Success(true)
                  then multiset(m.leftFile)[x] else 0)
            && (forall x :: multiset(r.rightSorted.value)[x] ==
                  if LineFilters.Matches(m.rightSorter.filter, x) == Success(true)
                  then multiset(m.rightFile)[x] else 0)
  {
    Sorters.SortOrders(m.leftSorter, m.leftFile);
    Sorters.SortOrders(m.rightSorter, m.rightFile);
    LineFilters.KeepMeaning(m.leftSorter.filter, m.leftFile);
    LineFilters.KeepMeaning(m.rightSorter.filter, m.rightFile);
  }

  /** join(): the merge join of the two sorted sides with the default key
      column, output columns and delimiter; the joined lines are kept. */
  function Join(m: Facade): (r: Result<Facade>)
    ensures m.leftSorted.None? || m.rightSorted.None? ==> r == Failure(NotReady)
    ensures r.Failure? ==> r.error in {NotReady, ColumnMissing, EmptyRightRow}
    ensures r.Success? ==> r.value == m.(joined := r.value.joined) && r.value.joined.Some?
  {
    if m.leftSorted.None? || m.rightSorted.None? then Failure(NotReady)
    else
      var lines :- MergeJoins.JoinDefault(m.leftSorted.value, m.rightSorted.value);
      Success(m.(joined := Some(lines)))
  }

  /** search(): the joined lines the search filter accepts, in order. */
  function Search(m: Facade): (r: Result<seq<string>>)
    ensures m.joined.None? ==> r == Failure(NotReady)
    ensures r.Failure? ==> r.error in {NotReady, NumberFormat, ColumnMissing}
    ensures r.Success? ==> LineFilters.IsSubsequence(r.value, m.joined.value)
    ensures r.Success? ==> forall x :: x in r.value <==>
              x in m.joined.value && LineFilters.Matches(m.searchFilter, x) == Success(true)
    ensures r.Success? ==>
              forall x :: multiset(r.value)[x] ==
                          if LineFilters.Matches(m.searchFilter, x) == Success(true)
                          then multiset(m.joined.value)[x] else 0
  {
    if m.joined.None? then Failure(NotReady)
    else
      LineFilters.KeepMeaning(m.searchFilter, m.joined.value);
      LineFilters.Keep(m.searchFilter, m.joined.value)
  }

  /** Without search conditions the search returns every joined line. */
  lemma SearchWithoutFilter(m: Facade)
    requires m.joined.Some? && m.searchFilter.predicates == []
    ensures Search(m) == Success(m.joined.value)
  {
    LineFilters.KeepWithoutPredicates(m.searchFilter, m.joined.value);
  }

  /* ---------------------------------------------------------------- */
  /*  Sort, then join                                                  */
  /* ---------------------------------------------------------------- */

  /** The relation settings the default join opens each side with. */
  function LeftConfig(): (c: Relations.Config)
    ensures c.joinKey == Const.DefaultJoinKey && c.delimiter == Const.DefaultDelimiter && c.isLeft
  {
    Relations.OpenDefault(Const.DefaultJoinKey, true).value
  }

  function RightConfig(): (c: Relations.Config)
    ensures c.joinKey == Const.DefaultJoinKey && c.delimiter == Const.DefaultDelimiter && !c.isLeft
  {
    Relations.OpenDefault(Const.DefaultJoinKey, false).value
  }

  /** Lines ordered on column `k` give rows whose join keys are ordered, when
      the relation reads its key from that same column. */
  lemma ColumnOrderIsKeyOrder(xs: seq<string>, cfg: Relations.Config)
    requires Relations.AllParse(cfg, xs) && cfg.joinKey >= 0
    requires |xs| < 2 || Sorters.SortedOnColumn(xs, cfg.joinKey, cfg.delimiter)
    ensures MergeJoins.SortedKeys(Relations.RowsOf(cfg, xs))
  {
    var rows := Relations.RowsOf(cfg, xs);
    Relations.RowsOfIndex(cfg, xs);
    forall i | 0 <= i < |xs|
      ensures rows[i].key == Split(xs[i], cfg.delimiter)[cfg.joinKey]
    {
      Relations.KeyOfColumn(cfg, xs[i]);
    }
  }

  /** Sorting on the join column and then joining gives the nested-loop
      equi-join of the two sorted sides, provided every sorted line has its
      key column and formats. */
  lemma SortThenJoin(m: Facade)
    requires SortsOnJoinKey(m) && SortBoth(m).Success?
    requires var s := SortBoth(m).value;
             Relations.AllParse(LeftConfig(), s.leftSorted.value) &&
             Relations.AllParse(RightConfig(), s.rightSorted.value)
    ensures var s := SortBoth(m).value;
            Join(s) == Success(s.(joined := Some(MergeJoins.NestedLoop(
                                 Relations.RowsOf(LeftConfig(), s.leftSorted.value),
                                 Relations.RowsOf(RightConfig(), s.rightSorted.value)))))
  {
    var s := SortBoth(m).value;
    var left, right := s.leftSorted.value, s.rightSorted.value;
    Sorters.SortOrders(m.leftSorter, m.leftFile);
    Sorters.SortOrders(m.rightSorter, m.rightFile);
    ColumnOrderIsKeyOrder(left, LeftConfig());
    ColumnOrderIsKeyOrder(right, RightConfig());
    MergeJoins.JoinIsNestedLoop(left, right, Const.DefaultJoinKey, Const.DefaultJoinKey, [-1], [-1],
                                Const.DefaultDelimiter);
  }
}
