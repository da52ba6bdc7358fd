/** The sort-merge equi-join of a left and a right table file: both are read
    run by run, the smaller key is skipped, and on equal keys every left row
    of the run is concatenated with every right row of the run. */
module MergeJoins {
  import opened Results
  import opened Text
  import Const
  import opened Relations

  /* ---------------------------------------------------------------- */
  /*  The reference join                                               */
  /* ---------------------------------------------------------------- */

  /** `l` concatenated with every row of `rs` that has its key, in order. */
  function Matching(l: Row, rs: seq<Row>): (out: seq<string>)
    ensures |out| <= |rs|
  {
    if |rs| == 0 then []
    else (if rs[0].key == l.key then [l.line + rs[0].line] else []) + Matching(l, rs[1..])
  }

  /** The equi-join as a nested loop: for each left row in order, each right
      row with the same key in order. */
  function NestedLoop(ls: seq<Row>, rs: seq<Row>): seq<string> {
    if |ls| == 0 then [] else Matching(ls[0], rs) + NestedLoop(ls[1..], rs)
  }

  /** The output of `Matching` is exactly the concatenations with equal keys. */
  lemma {:induction false} MatchingMembers(l: Row, rs: seq<Row>, x: string)
    ensures x in Matching(l, rs) <==> exists j :: 0 <= j < |rs| && rs[j].key == l.key && x == l.line + rs[j].line
  {
    if |rs| > 0 {
      MatchingMembers(l, rs[1..], x);
      if x in Matching(l, rs[1..]) {
        var j :| 0 <= j < |rs[1..]| && rs[1..][j].key == l.key && x == l.line + rs[1..][j].line;
        assert rs[j + 1] == rs[1..][j];
      }
      if exists j :: 0 <= j < |rs| && rs[j].key == l.key && x == l.line + rs[j].line {
        var j :| 0 <= j < |rs| && rs[j].key == l.key && x == l.line + rs[j].line;
        if j > 0 {
          assert rs[1..][j - 1] == rs[j];
        }
      }
    }
  }

  /** A line is in the join exactly when it is a left line followed by a right
      line with the same key. */
  lemma {:induction false} NestedLoopMembers(ls: seq<Row>, rs: seq<Row>, x: string)
    ensures x in NestedLoop(ls, rs) <==>
              exists i, j :: 0 <= i < |ls| && 0 <= j < |rs| && ls[i].key == rs[j].key && x == ls[i].line + rs[j].line
  {
    if |ls| > 0 {
      MatchingMembers(ls[0], rs, x);
      NestedLoopMembers(ls[1..], rs, x);
      if x in NestedLoop(ls[1..], rs) {
        var i, j :| 0 <= i < |ls[1..]| && 0 <= j < |rs| && ls[1..][i].key == rs[j].key && x == ls[1..][i].line + rs[j].line;
        assert ls[i + 1] == ls[1..][i];
      }
      if exists i, j :: 0 <= i < |ls| && 0 <= j < |rs| && ls[i].key == rs[j].key && x == ls[i].line + rs[j].line {
        var i, j :| 0 <= i < |ls| && 0 <= j < |rs| && ls[i].key == rs[j].key && x == ls[i].line + rs[j].line;
        if i > 0 {
          assert ls[1..][i - 1] == ls[i];
        }
      }
    }
  }

  /** The head and tail of a concatenation with a non-empty front. */
  lemma ConsAppend(r1: seq<Row>, r2: seq<Row>)
    requires |r1| > 0
    ensures (r1 + r2)[0] == r1[0] && (r1 + r2)[1..] == r1[1..] + r2
  {
  }

  lemma {:induction false} MatchingAppend(l: Row, r1: seq<Row>, r2: seq<Row>)
    ensures Matching(l, r1 + r2) == Matching(l, r1) + Matching(l, r2)
  {
    if |r1| == 0 {
      assert r1 + r2 == r2;
    } else {
      var head := if r1[0].key == l.key then [l.line + r1[0].line] else [];
      var a, b := Matching(l, r1[1..]), Matching(l, r2);
      MatchingAppend(l, r1[1..], r2);
      ConsAppend(r1, r2);
      assert Matching(l, r1 + r2) == head + (a + b);
      assert head + (a + b) == (head + a) + b;
    }
  }

  lemma {:induction false} NestedLoopAppendLeft(l1: seq<Row>, l2: seq<Row>, rs: seq<Row>)
    ensures NestedLoop(l1 + l2, rs) == NestedLoop(l1, rs) + NestedLoop(l2, rs)
  {
    if |l1| == 0 {
      assert l1 + l2 == l2;
    } else {
      var a, b := NestedLoop(l1[1..], rs), NestedLoop(l2, rs);
      NestedLoopAppendLeft(l1[1..], l2, rs);
      ConsAppend(l1, l2);
      assert NestedLoop(l1 + l2, rs) == Matching(l1[0], rs) + (a + b);
    }
  }

  /** No key of `ls` is a key of `rs`. */
  ghost predicate Disjoint(ls: seq<Row>, rs: seq<Row>) {
    forall i, j :: 0 <= i < |ls| && 0 <= j < |rs| ==> ls[i].key != rs[j].key
  }

  lemma {:induction false} MatchingNone(l: Row, rs: seq<Row>)
    requires forall j :: 0 <= j < |rs| ==> rs[j].key != l.key
    ensures Matching(l, rs) == []
  {
    if |rs| > 0 {
      MatchingNone(l, rs[1..]);
    }
  }

  /** Right rows without the key of `l` match nothing, wherever they stand. */
  lemma MatchingDropRight(l: Row, r1: seq<Row>, r2: seq<Row>, r3: seq<Row>)
    requires forall j :: 0 <= j < |r2| ==> r2[j].key != l.key
    ensures Matching(l, r1 + r2 + r3) == Matching(l, r1 + r3)
  {
    MatchingAppend(l, r1 + r2, r3);
    MatchingAppend(l, r1, r2);
    MatchingAppend(l, r1, r3);
    MatchingNone(l, r2);
    var a := Matching(l, r1);
    assert a + [] == a;
  }

  lemma DisjointTail(ls: seq<Row>, rs: seq<Row>)
    requires |ls| > 0 && Disjoint(ls, rs)
    ensures Disjoint(ls[1..], rs)
    ensures forall j :: 0 <= j < |rs| ==> rs[j].key != ls[0].key
  {
    forall i, j | 0 <= i < |ls[1..]| && 0 <= j < |rs|
      ensures ls[1..][i].key != rs[j].key
    {
      assert ls[1..][i] == ls[i + 1];
    }
  }

  /** Right rows whose keys no left row has add nothing, wherever they stand. */
  lemma {:induction false} NestedLoopDropRight(ls: seq<Row>, r1: seq<Row>, r2: seq<Row>, r3: seq<Row>)
    requires Disjoint(ls, r2)
    ensures NestedLoop(ls, r1 + r2 + r3) == NestedLoop(ls, r1 + r3)
  {
    if |ls| > 0 {
      DisjointTail(ls, r2);
      NestedLoopDropRight(ls[1..], r1, r2, r3);
      MatchingDropRight(ls[0], r1, r2, r3);
    }
  }

  lemma DropFront(ls: seq<Row>, r2: seq<Row>, r3: seq<Row>)
    requires Disjoint(ls, r2)
    ensures NestedLoop(ls, r2 + r3) == NestedLoop(ls, r3)
  {
    NestedLoopDropRight(ls, [], r2, r3);
    assert [] + r2 + r3 == r2 + r3 && [] + r3 == r3;
  }

  lemma DropBack(ls: seq<Row>, r1: seq<Row>, r2: seq<Row>)
    requires Disjoint(ls, r2)
    ensures NestedLoop(ls, r1 + r2) == NestedLoop(ls, r1)
  {
    NestedLoopDropRight(ls, r1, r2, []);
    assert r1 + r2 + [] == r1 + r2 && r1 + [] == r1;
  }

  lemma NestedLoopDisjoint(ls: seq<Row>, rs: seq<Row>)
    requires Disjoint(ls, rs)
    ensures NestedLoop(ls, rs) == []
  {
    NestedLoopDropRight(ls, [], rs, []);
    assert [] + rs + [] == rs;
    NestedLoopNoRight(ls);
  }

  lemma {:induction false} NestedLoopNoRight(ls: seq<Row>)
    ensures NestedLoop(ls, []) == []
  {
    if |ls| > 0 {
      NestedLoopNoRight(ls[1..]);
    }
  }

  /* ---------------------------------------------------------------- */
  /*  The merge loop                                                   */
  /* ---------------------------------------------------------------- */

  /** `l` concatenated with every row of `rs`. */
  function Pair(l: Row, rs: seq<Row>): (out: seq<string>)
    ensures |out| == |rs|
  {
    if |rs| == 0 then [] else [l.line + rs[0].line] + Pair(l, rs[1..])
  }

  /** The two nested loops over equal-key runs: every left row with every
      right row, left-major. */
  function Product(ls: seq<Row>, rs: seq<Row>): (out: seq<string>)
    ensures |out| == |ls| * |rs|
  {
    if |ls| == 0 then []
    else
      var rest := Product(ls[1..], rs);
      assert |ls| * |rs| == |rs| + (|ls| - 1) * |rs|;
      Pair(ls[0], rs) + rest
  }

  /** Every row of `rs` has key `k`. */
  ghost predicate AllKey(rs: seq<Row>, k: string) {
    forall j :: 0 <= j < |rs| ==> rs[j].key == k
  }

  lemma {:induction false} PairIsMatching(l: Row, rs: seq<Row>)
    requires AllKey(rs, l.key)
    ensures Pair(l, rs) == Matching(l, rs)
  {
    if |rs| > 0 {
      PairIsMatching(l, rs[1..]);
    }
  }

  /** On runs of one key, the product is the nested-loop join. */
  lemma {:induction false} ProductIsNestedLoop(ls: seq<Row>, rs: seq<Row>, k: string)
    requires AllKey(ls, k) && AllKey(rs, k)
    ensures Product(ls, rs) == NestedLoop(ls, rs)
  {
    if |ls| > 0 {
      PairIsMatching(ls[0], rs);
      ProductIsNestedLoop(ls[1..], rs, k);
    }
  }

  /** The loop of join(): while both sides have a run, compare the run keys;
      on equal keys emit the product and advance both sides, otherwise
      advance the side with the smaller key. */
  function MergeLoop(l: Scanner, r: Scanner): (out: Result<seq<string>>)
    requires Valid(l) && Valid(r) && |l.group| > 0 && |r.group| > 0
    ensures out.Failure? ==> out.error in {ColumnMissing, EmptyRightRow}
    decreases Work(l) + Work(r)
  {
    var diff := Compare(l.group[0].key, r.group[0].key);
    if diff == 0 then
      var product := Product(l.group, r.group);
      var ls :- Advance(l);
      var rs :- Advance(r);
      if ls.hasNext && rs.hasNext then
        var rest :- MergeLoop(ls.scanner, rs.scanner);
        Success(product + rest)
      else Success(product)
    else if diff < 0 then
      var ls :- Advance(l);
      if ls.hasNext then MergeLoop(ls.scanner, r) else Success([])
    else
      var rs :- Advance(r);
      if rs.hasNext then MergeLoop(l, rs.scanner) else Success([])
  }

  /** The merge on the level of runs. */
  function MergeRuns(lg: seq<seq<Row>>, rg: seq<seq<Row>>): seq<string>
    requires forall g :: g in lg ==> |g| > 0
    requires forall g :: g in rg ==> |g| > 0
    decreases |lg| + |rg|
  {
    if |lg| == 0 || |rg| == 0 then []
    else
      var diff := Compare(lg[0][0].key, rg[0][0].key);
      if diff == 0 then Product(lg[0], rg[0]) + MergeRuns(lg[1..], rg[1..])
      else if diff < 0 then MergeRuns(lg[1..], rg)
      else MergeRuns(lg, rg[1..])
  }

  /** Two readers positioned on a run each, with lines that all parse. */
  ghost predicate Ready(l: Scanner, r: Scanner) {
    && Valid(l) && Valid(r) && |l.group| > 0 && |r.group| > 0
    && AllParse(l.cfg, Pending(l)) && AllParse(r.cfg, Pending(r))
  }

  /** The merge loop from `l` and `r` merges their current and coming runs. */
  ghost predicate Merges(l: Scanner, r: Scanner)
    requires Ready(l, r)
  {
    MergeLoop(l, r) == Success(MergeRuns([l.group] + View(l), [r.group] + View(r)))
  }

  /** The merge of runs, one step on a first run on each side. */
  lemma MergeRunsCons(a: seq<Row>, la: seq<seq<Row>>, b: seq<Row>, lb: seq<seq<Row>>)
    requires |a| > 0 && |b| > 0
    requires forall g :: g in la ==> |g| > 0
    requires forall g :: g in lb ==> |g| > 0
    ensures var diff := Compare(a[0].key, b[0].key);
            && (diff == 0 ==> MergeRuns([a] + la, [b] + lb) == Product(a, b) + MergeRuns(la, lb))
            && (diff < 0 ==> MergeRuns([a] + la, [b] + lb) == MergeRuns(la, [b] + lb))
            && (diff > 0 ==> MergeRuns([a] + la, [b] + lb) == MergeRuns([a] + la, lb))
  {
    assert ([a] + la)[0] == a && ([a] + la)[1..] == la;
    assert ([b] + lb)[0] == b && ([b] + lb)[1..] == lb;
  }

  /** The loop on equal keys: the product, then the loop from both next runs. */
  lemma MergeLoopEqual(l: Scanner, r: Scanner)
    requires Valid(l) && Valid(r) && |l.group| > 0 && |r.group| > 0
    requires Compare(l.group[0].key, r.group[0].key) == 0
    requires Advance(l).Success? && Advance(r).Success?
    ensures var ls, rs := Advance(l).value, Advance(r).value;
            var product := Product(l.group, r.group);
            && (!(ls.hasNext && rs.hasNext) ==> MergeLoop(l, r) == Success(product))
            && (ls.hasNext && rs.hasNext && MergeLoop(ls.scanner, rs.scanner).Success? ==>
                  MergeLoop(l, r) == Success(product + MergeLoop(ls.scanner, rs.scanner).value))
  {
  }

  /** Equal keys with a run to come on both sides: the product, then the
      merge of the next runs. */
  lemma EqualBoth(l: Scanner, r: Scanner)
    requires Ready(l, r) && Compare(l.group[0].key, r.group[0].key) == 0
    requires Advance(l).Success? && Advance(r).Success?
    requires Advance(l).value.hasNext && Advance(r).value.hasNext
    requires Ready(Advance(l).value.scanner, Advance(r).value.scanner)
    requires Merges(Advance(l).value.scanner, Advance(r).value.scanner)
    ensures Merges(l, r)
  {
    var ls, rs := Advance(l).value.scanner, Advance(r).value.scanner;
    MergeLoopEqual(l, r);
    MergeRunsCons(l.group, View(l), r.group, View(r));
    AdvanceView(l);
    AdvanceView(r);
  }

  /** Equal keys with one side at its end: the product ends the output. */
  lemma EqualEnd(l: Scanner, r: Scanner)
    requires Ready(l, r) && Compare(l.group[0].key, r.group[0].key) == 0
    requires Advance(l).Success? && Advance(r).Success?
    requires !(Advance(l).value.hasNext && Advance(r).value.hasNext)
    ensures Merges(l, r)
  {
    var product := Product(l.group, r.group);
    MergeLoopEqual(l, r);
    MergeRunsCons(l.group, View(l), r.group, View(r));
    AdvanceView(l);
    AdvanceView(r);
    assert MergeRuns(View(l), View(r)) == [];
    assert product + [] == product;
  }

  /** Equal keys: the product, then the merge from both next runs. */
  lemma EqualStep(l: Scanner, r: Scanner)
    requires Ready(l, r) && Compare(l.group[0].key, r.group[0].key) == 0
    requires Advance(l).Success? && Advance(r).Success?
    requires var ls, rs := Advance(l).value, Advance(r).value;
             ls.hasNext && rs.hasNext ==> Ready(ls.scanner, rs.scanner) && Merges(ls.scanner, rs.scanner)
    ensures Merges(l, r)
  {
    if Advance(l).value.hasNext && Advance(r).value.hasNext {
      EqualBoth(l, r);
    } else {
      EqualEnd(l, r);
    }
  }

  /** A smaller left key: the merge from the next left run. */
  lemma LeftStep(l: Scanner, r: Scanner)
    requires Ready(l, r) && Compare(l.group[0].key, r.group[0].key) < 0
    requires Advance(l).Success?
    requires var ls := Advance(l).value;
             ls.hasNext ==> Ready(ls.scanner, r) && Merges(ls.scanner, r)
    ensures Merges(l, r)
  {
    AdvanceView(l);
    AdvanceView(r);
    MergeRunsCons(l.group, View(l), r.group, View(r));
  }

  /** A smaller right key: the merge from the next right run. */
  lemma RightStep(l: Scanner, r: Scanner)
    requires Ready(l, r) && Compare(l.group[0].key, r.group[0].key) > 0
    requires Advance(r).Success?
    requires var rs := Advance(r).value;
             rs.hasNext ==> Ready(l, rs.scanner) && Merges(l, rs.scanner)
    ensures Merges(l, r)
  {
    AdvanceView(l);
    AdvanceView(r);
    MergeRunsCons(l.group, View(l), r.group, View(r));
  }

  /** The loop over two readers whose lines all parse merges the current runs
      and the runs still to come. */
  lemma {:induction false} MergeLoopIsMergeRuns(l: Scanner, r: Scanner)
    requires Ready(l, r)
    ensures Merges(l, r)
    decreases Work(l) + Work(r)
  {
    AdvanceView(l);
    AdvanceView(r);
    var ls, rs := Advance(l).value, Advance(r).value;
    var diff := Compare(l.group[0].key, r.group[0].key);
    if diff == 0 {
      if ls.hasNext && rs.hasNext {
        MergeLoopIsMergeRuns(ls.scanner, rs.scanner);
      }
      EqualStep(l, r);
    } else if diff < 0 {
      if ls.hasNext {
        MergeLoopIsMergeRuns(ls.scanner, r);
      }
      LeftStep(l, r);
    } else {
      if rs.hasNext {
        MergeLoopIsMergeRuns(l, rs.scanner);
      }
      RightStep(l, r);
    }
  }

  /* ---------------------------------------------------------------- */
  /*  Merging sorted runs is the nested-loop join                      */
  /* ---------------------------------------------------------------- */

  /** Keys in non-decreasing String.compareTo order. */
  ghost predicate SortedKeys(rows: seq<Row>) {
    forall i, j :: 0 <= i < j < |rows| ==> Compare(rows[i].key, rows[j].key) <= 0
  }

  /** Every key of `rows` is above `k`. */
  ghost predicate Above(rows: seq<Row>, k: string) {
    forall j :: 0 <= j < |rows| ==> Compare(k, rows[j].key) < 0
  }

  /** Behind the first run of a sorted sequence every key is above the first. */
  lemma FirstRunAbove(rows: seq<Row>)
    requires |rows| > 0 && SortedKeys(rows)
    ensures Above(rows[RunLen(rows, rows[0].key)..], rows[0].key)
  {
    var k := rows[0].key;
    var n := RunLen(rows, k);
    var rest := rows[n..];
    if n < |rows| {
      assert Compare(k, rows[n].key) < 0 by {
        assert Compare(rows[0].key, rows[n].key) <= 0;
      }
      forall j | 0 <= j < |rest|
        ensures Compare(k, rest[j].key) < 0
      {
        assert rest[j] == rows[n + j];
        if j > 0 {
          assert Compare(rows[n].key, rows[n + j].key) <= 0;
          CompareStrictTransitive(k, rows[n].key, rest[j].key);
        }
      }
    }
  }

  lemma SortedSuffix(rows: seq<Row>, n: nat)
    requires n <= |rows| && SortedKeys(rows)
    ensures SortedKeys(rows[n..])
  {
    var rest := rows[n..];
    forall i, j | 0 <= i < j < |rest|
      ensures Compare(rest[i].key, rest[j].key) <= 0
    {
      assert rest[i] == rows[n + i] && rest[j] == rows[n + j];
    }
  }

  /** A sorted sequence falls into its first run, all of the first key, and
      a sorted rest whose keys are all above it. */
  lemma FirstRun(rows: seq<Row>)
    requires |rows| > 0 && SortedKeys(rows)
    ensures var n := RunLen(rows, rows[0].key);
            && AllKey(rows[..n], rows[0].key)
            && Above(rows[n..], rows[0].key)
            && SortedKeys(rows[n..])
            && Groups(rows) == [rows[..n]] + Groups(rows[n..])
  {
    FirstRunAbove(rows);
    SortedSuffix(rows, RunLen(rows, rows[0].key));
  }

  /** A row set entirely above `k` shares no key with a run of key `k`. */
  lemma AboveDisjoint(run: seq<Row>, k: string, rows: seq<Row>)
    requires AllKey(run, k) && Above(rows, k)
    ensures Disjoint(run, rows) && Disjoint(rows, run)
  {
  }

  /** Rows of a key below every key of `rows`: they share none with them. */
  lemma BelowDisjoint(run: seq<Row>, k: string, rows: seq<Row>)
    requires AllKey(run, k)
    requires |rows| > 0 && SortedKeys(rows) && Compare(k, rows[0].key) < 0
    ensures Disjoint(run, rows) && Disjoint(rows, run)
  {
    forall j | 0 <= j < |rows|
      ensures Compare(k, rows[j].key) < 0
    {
      if j > 0 {
        CompareStrictTransitive(k, rows[0].key, rows[j].key);
      }
    }
  }

  /** Merging the runs of `ls` and `rs` gives their nested-loop join. */
  ghost predicate RunsJoin(ls: seq<Row>, rs: seq<Row>) {
    MergeRuns(Groups(ls), Groups(rs)) == NestedLoop(ls, rs)
  }

  /** The join splits along a cut of the left rows. */
  lemma NestedLoopSplit(ls: seq<Row>, rs: seq<Row>, n: nat)
    requires n <= |ls|
    ensures NestedLoop(ls, rs) == NestedLoop(ls[..n], rs) + NestedLoop(ls[n..], rs)
  {
    NestedLoopAppendLeft(ls[..n], ls[n..], rs);
    assert ls[..n] + ls[n..] == ls;
  }

  /** Right rows in front that no left row matches add nothing. */
  lemma DropFrontAt(ls: seq<Row>, rs: seq<Row>, m: nat)
    requires m <= |rs| && Disjoint(ls, rs[..m])
    ensures NestedLoop(ls, rs) == NestedLoop(ls, rs[m..])
  {
    DropFront(ls, rs[..m], rs[m..]);
    assert rs[..m] + rs[m..] == rs;
  }

  /** Right rows at the back that no left row matches add nothing. */
  lemma DropBackAt(ls: seq<Row>, rs: seq<Row>, m: nat)
    requires m <= |rs| && Disjoint(ls, rs[m..])
    ensures NestedLoop(ls, rs) == NestedLoop(ls, rs[..m])
  {
    DropBack(ls, rs[..m], rs[m..]);
    assert rs[..m] + rs[m..] == rs;
  }

  /** The merge of runs, one step on first runs `lg[0]` and `rg[0]`. */
  lemma MergeRunsStep(lg: seq<seq<Row>>, rg: seq<seq<Row>>)
    requires |lg| > 0 && |rg| > 0
    requires forall g :: g in lg ==> |g| > 0
    requires forall g :: g in rg ==> |g| > 0
    ensures var diff := Compare(lg[0][0].key, rg[0][0].key);
            && (diff == 0 ==> MergeRuns(lg, rg) == Product(lg[0], rg[0]) + MergeRuns(lg[1..], rg[1..]))
            && (diff < 0 ==> MergeRuns(lg, rg) == MergeRuns(lg[1..], rg))
            && (diff > 0 ==> MergeRuns(lg, rg) == MergeRuns(lg, rg[1..]))
  {
  }

  /** The first run of a non-empty row sequence. */
  lemma FirstGroup(rows: seq<Row>)
    requires |rows| > 0
    ensures var n := RunLen(rows, rows[0].key);
            && 0 < n
            && Groups(rows) == [rows[..n]] + Groups(rows[n..])
            && Groups(rows)[0] == rows[..n] && Groups(rows)[1..] == Groups(rows[n..])
            && Groups(rows)[0][0] == rows[0]
  {
  }

  /** Equal first keys: the product of the first runs, then the rest. */
  lemma RunsEqualStep(ls: seq<Row>, rs: seq<Row>, n: nat, m: nat)
    requires |ls| > 0 && |rs| > 0 && ls[0].key == rs[0].key
    requires n == RunLen(ls, ls[0].key) && m == RunLen(rs, rs[0].key)
    requires AllKey(ls[..n], ls[0].key) && AllKey(rs[..m], rs[0].key)
    requires Disjoint(ls[n..], rs[..m]) && Disjoint(ls[..n], rs[m..])
    requires RunsJoin(ls[n..], rs[m..])
    ensures RunsJoin(ls, rs)
  {
    FirstGroup(ls);
    FirstGroup(rs);
    MergeRunsStep(Groups(ls), Groups(rs));
    NestedLoopSplit(ls, rs, n);
    DropFrontAt(ls[n..], rs, m);
    DropBackAt(ls[..n], rs, m);
    ProductIsNestedLoop(ls[..n], rs[..m], ls[0].key);
  }

  /** A smaller left key: its run meets nothing on the right. */
  lemma RunsLeftStep(ls: seq<Row>, rs: seq<Row>, n: nat)
    requires |ls| > 0 && |rs| > 0 && Compare(ls[0].key, rs[0].key) < 0
    requires n == RunLen(ls, ls[0].key) && Disjoint(ls[..n], rs)
    requires RunsJoin(ls[n..], rs)
    ensures RunsJoin(ls, rs)
  {
    FirstGroup(ls);
    FirstGroup(rs);
    MergeRunsStep(Groups(ls), Groups(rs));
    NestedLoopSplit(ls, rs, n);
    NestedLoopDisjoint(ls[..n], rs);
  }

  /** A smaller right key: its run meets nothing on the left. */
  lemma RunsRightStep(ls: seq<Row>, rs: seq<Row>, m: nat)
    requires |ls| > 0 && |rs| > 0 && Compare(ls[0].key, rs[0].key) > 0
    requires m == RunLen(rs, rs[0].key) && Disjoint(ls, rs[..m])
    requires RunsJoin(ls, rs[m..])
    ensures RunsJoin(ls, rs)
  {
    FirstGroup(ls);
    FirstGroup(rs);
    MergeRunsStep(Groups(ls), Groups(rs));
    DropFrontAt(ls, rs, m);
  }

  /** Merging the runs of two sorted row sequences is the nested-loop join
      of the rows. */
  lemma {:induction false} MergeRunsIsNestedLoop(ls: seq<Row>, rs: seq<Row>)
    requires SortedKeys(ls) && SortedKeys(rs)
    ensures RunsJoin(ls, rs)
    decreases |ls| + |rs|
  {
    if |ls| == 0 {
    } else if |rs| == 0 {
      NestedLoopNoRight(ls);
    } else {
      var kl, kr := ls[0].key, rs[0].key;
      var n, m := RunLen(ls, kl), RunLen(rs, kr);
      FirstRun(ls);
      FirstRun(rs);
      var diff := Compare(kl, kr);
      if diff == 0 {
        MergeRunsIsNestedLoop(ls[n..], rs[m..]);
        AboveDisjoint(rs[..m], kl, ls[n..]);
        AboveDisjoint(ls[..n], kl, rs[m..]);
        RunsEqualStep(ls, rs, n, m);
      } else if diff < 0 {
        MergeRunsIsNestedLoop(ls[n..], rs);
        BelowDisjoint(ls[..n], kl, rs);
        RunsLeftStep(ls, rs, n);
      } else {
        MergeRunsIsNestedLoop(ls, rs[m..]);
        CompareAntisymmetric(kl, kr);
        BelowDisjoint(rs[..m], kr, ls);
        RunsRightStep(ls, rs, m);
      }
    }
  }

  /* ---------------------------------------------------------------- */
  /*  join                                                             */
  /* ---------------------------------------------------------------- */

  /** join(leftJoinKey, rightJoinKey, leftFormat, rightFormat, delimiter):
      open the left relation, then the right one, advance each once, and run
      the merge loop while both have a run. */
  function Join(leftLines: seq<string>, rightLines: seq<string>, leftKey: int, rightKey: int,
                leftFormat: seq<int>, rightFormat: seq<int>, d: Delimiter): (out: Result<seq<string>>)
    ensures |leftFormat| == 0 ==> out == Failure(MissingFormat)
    ensures |leftFormat| > 0 && |rightFormat| == 0 ==> out == Failure(MissingFormat)
    ensures out.Failure? && |leftFormat| > 0 && |rightFormat| > 0 ==> out.error in {ColumnMissing, EmptyRightRow}
  {
    var lc :- Open(leftKey, true, leftFormat, d);
    var rc :- Open(rightKey, false, rightFormat, d);
    var ls :- Advance(Start(lc, leftLines));
    var rs :- Advance(Start(rc, rightLines));
    if ls.hasNext && rs.hasNext then MergeLoop(ls.scanner, rs.scanner) else Success([])
  }

  /** The join of two files whose lines all parse and whose key columns are
      sorted is the nested-loop equi-join of their rows. */
  lemma JoinIsNestedLoop(leftLines: seq<string>, rightLines: seq<string>, leftKey: int, rightKey: int,
                         leftFormat: seq<int>, rightFormat: seq<int>, d: Delimiter)
    requires |leftFormat| > 0 && |rightFormat| > 0
    requires var lc := Open(leftKey, true, leftFormat, d).value;
             AllParse(lc, leftLines) && SortedKeys(RowsOf(lc, leftLines))
    requires var rc := Open(rightKey, false, rightFormat, d).value;
             AllParse(rc, rightLines) && SortedKeys(RowsOf(rc, rightLines))
    ensures Join(leftLines, rightLines, leftKey, rightKey, leftFormat, rightFormat, d) ==
            Success(NestedLoop(RowsOf(Open(leftKey, true, leftFormat, d).value, leftLines),
                               RowsOf(Open(rightKey, false, rightFormat, d).value, rightLines)))
  {
    var lc, rc := Open(leftKey, true, leftFormat, d).value, Open(rightKey, false, rightFormat, d).value;
    var l0, r0 := Start(lc, leftLines), Start(rc, rightLines);
    var lrows, rrows := RowsOf(lc, leftLines), RowsOf(rc, rightLines);
    assert View(l0) == Groups(lrows) && View(r0) == Groups(rrows);
    AdvanceView(l0);
    AdvanceView(r0);
    var ls, rs := Advance(l0).value, Advance(r0).value;
    MergeRunsIsNestedLoop(lrows, rrows);
    if ls.hasNext && rs.hasNext {
      MergeLoopIsMergeRuns(ls.scanner, rs.scanner);
    } else if !ls.hasNext {
      assert lrows == [] by {
        FlattenGroups(lrows);
      }
    } else {
      assert rrows == [] by {
        FlattenGroups(rrows);
      }
      NestedLoopNoRight(lrows);
    }
  }

  /** join(): the default key column on both sides, default output columns
      and delimiter; it cannot fail for want of a format. */
  function JoinDefault(leftLines: seq<string>, rightLines: seq<string>): (out: Result<seq<string>>)
    ensures out.Failure? ==> out.error in {ColumnMissing, EmptyRightRow}
  {
    JoinOnKey(leftLines, rightLines, Const.DefaultJoinKey)
  }

  /** join(joinKey): one key column for both sides, default output columns
      and delimiter. */
  function JoinOnKey(leftLines: seq<string>, rightLines: seq<string>, joinKey: int): (out: Result<seq<string>>)
    ensures out.Failure? ==> out.error in {ColumnMissing, EmptyRightRow}
  {
    JoinWithFormat(leftLines, rightLines, joinKey, [-1], [-1])
  }

  /** join(joinKey, leftFormat, rightFormat): default delimiter. */
  function JoinWithFormat(leftLines: seq<string>, rightLines: seq<string>, joinKey: int,
                          leftFormat: seq<int>, rightFormat: seq<int>): (out: Result<seq<string>>)
    ensures |leftFormat| > 0 && |rightFormat| > 0 && out.Failure? ==> out.error in {ColumnMissing, EmptyRightRow}
  {
    Join(leftLines, rightLines, joinKey, joinKey, leftFormat, rightFormat, Const.DefaultDelimiter)
  }

  /** A file that reads to the end has a first advance that succeeds. */
  lemma FirstAdvance(cfg: Config, lines: seq<string>)
    requires AllParse(cfg, lines)
    ensures Advance(Start(cfg, lines)).Success?
  {
    DrainSucceedsIffAllParse(cfg, lines);
  }

  /** With the default output columns a right row keeps only the columns
      after the first two, so a first line with nothing after its key column
      makes the first advance raise. */
  lemma KeyOnlyRightAdvance(joinKey: int, rightLines: seq<string>)
    requires |rightLines| > 0
    requires 0 <= joinKey < |SplitNoLimit(rightLines[0], Const.DefaultDelimiter)| <= 2
    ensures Advance(Start(OpenDefault(joinKey, false).value, rightLines)) == Failure(EmptyRightRow)
  {
    var rc := OpenDefault(joinKey, false).value;
    var columns := SplitNoLimit(rightLines[0], Const.DefaultDelimiter);
    assert NextLine(Start(rc, rightLines).(group := [])) == rightLines[0];
    assert FormatRow(rc, columns) == Failure(EmptyRightRow) by {
      DefaultProjection(rc, columns);
    }
  }

  /** So the default join raises on such a right file, whatever the left
      file holds, as long as the left file reads. */
  lemma KeyOnlyRightLineRaises(leftLines: seq<string>, rightLines: seq<string>, joinKey: int)
    requires AllParse(OpenDefault(joinKey, true).value, leftLines)
    requires |rightLines| > 0
    requires 0 <= joinKey < |SplitNoLimit(rightLines[0], Const.DefaultDelimiter)| <= 2
    ensures JoinOnKey(leftLines, rightLines, joinKey) == Failure(EmptyRightRow)
  {
    FirstAdvance(OpenDefault(joinKey, true).value, leftLines);
    KeyOnlyRightAdvance(joinKey, rightLines);
  }
}
