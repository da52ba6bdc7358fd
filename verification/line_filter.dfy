/** LineFilter.java: an ordered list of column predicates that a line must all
    satisfy, evaluated on a split of the line no wider than the predicates need. */
module LineFilters {
  import opened Results
  import opened Text
  import opened Operators
  import Const

  /* ---------------------------------------------------------------- */
  /*  Outcome masks                                                    */
  /* ---------------------------------------------------------------- */

  /** Operators accepting a comparison outcome of zero. */
  const DiffZero: bv32 := Bit(EQ) + Bit(LTE) + Bit(GTE)

  /** Operators accepting a negative comparison outcome. */
  const DiffNegative: bv32 := Bit(LT) + Bit(LTE)

  /** Operators accepting a positive comparison outcome. */
  const DiffPositive: bv32 := Bit(GT) + Bit(GTE)

  /** The mask selected by the sign of a comparison outcome. */
  function OutcomeMask(diff: int): (m: bv32)
    ensures diff == 0 ==> m == 11
    ensures diff < 0 ==> m == 24
    ensures diff > 0 ==> m == 6
  {
    // The operator bits are distinct, so each sum is the union of its bits.
    assert DiffZero == Bit(EQ) | Bit(LTE) | Bit(GTE) == 11;
    assert DiffNegative == Bit(LT) | Bit(LTE) == 24;
    assert DiffPositive == Bit(GT) | Bit(GTE) == 6;
    if diff == 0 then DiffZero
    else if diff < 0 then DiffNegative
    else DiffPositive
  }

  /** `(condition & operand.getValue()) != 0`: the table lookup agrees with the
      documented meaning of every operator, for every outcome. */
  function Accepts(op: Operator, diff: int): (b: bool)
    ensures b <==> Holds(op, diff)
  {
    OutcomeMask(diff) & Bit(op) != 0
  }

  /* ---------------------------------------------------------------- */
  /*  Predicates                                                       */
  /* ---------------------------------------------------------------- */

  /** The value a predicate compares with: an Integer, a String, or any other
      object (which the Java code never compares, leaving the outcome 0). */
  datatype Value = IntVal(i: Int32) | StrVal(s: string) | OtherVal

  /** Filter: a column index, an operator and a value. */
  datatype Predicate = Predicate(column: int, op: Operator, value: Value)

  /** The sign of comparing column text `target` with `v`:
      `Integer.decode(target).compareTo(i)` for an Integer value,
      `target.compareTo(s)` for a String value, 0 otherwise. */
  function Outcome(target: string, v: Value): (r: Result<int>)
    ensures r.Failure? ==> r.error == NumberFormat
  {
    match v
    case IntVal(i) =>
      (match Decode(target)
       case None => Failure(NumberFormat)
       case Some(n) => Success(if n < i then -1 else if n == i then 0 else 1))
    case StrVal(s) => Success(Compare(target, s))
    case OtherVal => Success(0)
  }

  /** The outcome is a sign; for an Integer value it fails exactly when the
      column does not decode and orders the decoded number against the value,
      and for a String value it orders the column lexicographically. */
  lemma OutcomeMeaning(target: string, v: Value)
    ensures var r := Outcome(target, v);
            && (r.Success? ==> -1 <= r.value <= 1)
            && (v.IntVal? ==> (r.Success? <==> Decode(target).Some?))
            && (v.IntVal? && r.Success? ==>
                  && (r.value == 0 <==> Decode(target).value == v.i)
                  && (r.value < 0 <==> Decode(target).value < v.i))
            && (v.StrVal? ==> r.Success?)
            && (v.StrVal? ==> (r.value == 0 <==> target == v.s))
            && (v.StrVal? ==> (r.value < 0 <==> LexLess(target, v.s)))
            && (v.OtherVal? ==> r == Success(0))
  {
    if v.StrVal? {
      CompareIsLexicographic(target, v.s);
    }
  }

  /** One predicate against the columns of a line: its column must exist, and
      the operator must hold of the comparison outcome. */
  function Test(p: Predicate, columns: seq<string>): (r: Result<bool>)
    ensures r.Failure? ==> r.error in {NumberFormat, ColumnMissing}
  {
    if !(0 <= p.column < |columns|) then Failure(ColumnMissing)
    else
      var diff :- Outcome(columns[p.column], p.value);
      Success(Accepts(p.op, diff))
  }

  /** A predicate raises ColumnMissing when its column is out of range and
      NumberFormat when the column must be a number and is not; otherwise its
      verdict is whether the operator holds of the comparison outcome. */
  lemma TestMeaning(p: Predicate, columns: seq<string>)
    ensures !(0 <= p.column < |columns|) ==> Test(p, columns) == Failure(ColumnMissing)
    ensures 0 <= p.column < |columns| && Outcome(columns[p.column], p.value).Failure? ==>
              Test(p, columns) == Failure(NumberFormat)
    ensures 0 <= p.column < |columns| && Outcome(columns[p.column], p.value).Success? ==>
              Test(p, columns) == Success(Holds(p.op, Outcome(columns[p.column], p.value).value))
  {
    if 0 <= p.column < |columns| && Outcome(columns[p.column], p.value).Success? {
      OutcomeMeaning(columns[p.column], p.value);
    }
  }

  /** The predicates in order, stopping at the first one that does not match. */
  function TestAll(preds: seq<Predicate>, columns: seq<string>): Result<bool> {
    if |preds| == 0 then Success(true)
    else
      var head := Test(preds[0], columns);
      if head == Success(true) then TestAll(preds[1..], columns) else head
  }

  /** The verdict is true only if every predicate matches. */
  lemma {:induction false} TestAllMeaning(preds: seq<Predicate>, columns: seq<string>)
    ensures TestAll(preds, columns) == Success(true) <==>
              forall i :: 0 <= i < |preds| ==> Test(preds[i], columns) == Success(true)
  {
    if |preds| > 0 {
      TestAllMeaning(preds[1..], columns);
      assert forall i :: 1 <= i < |preds| ==> preds[1..][i - 1] == preds[i];
    }
  }

  /** Predicate `i` gives the verdict `r` and every predicate before it matches. */
  predicate DecidedAt(preds: seq<Predicate>, columns: seq<string>, i: int, r: Result<bool>) {
    0 <= i < |preds| && Test(preds[i], columns) == r &&
    forall j :: 0 <= j < i ==> Test(preds[j], columns) == Success(true)
  }

  lemma DecidedAtShift(preds: seq<Predicate>, columns: seq<string>, i: int, r: Result<bool>)
    requires |preds| > 0 && Test(preds[0], columns) == Success(true)
    requires DecidedAt(preds[1..], columns, i, r)
    ensures DecidedAt(preds, columns, i + 1, r)
  {
    forall j | 0 < j < i + 1
      ensures Test(preds[j], columns) == Success(true)
    {
      assert preds[j] == preds[1..][j - 1];
    }
  }

  /** A verdict other than true is that of the first predicate that does not
      match. */
  lemma {:induction false} TestAllFirst(preds: seq<Predicate>, columns: seq<string>)
    ensures TestAll(preds, columns) != Success(true) ==>
              exists i :: DecidedAt(preds, columns, i, TestAll(preds, columns))
  {
    if |preds| > 0 {
      if Test(preds[0], columns) == Success(true) {
        var r := TestAll(preds[1..], columns);
        TestAllFirst(preds[1..], columns);
        if r != Success(true) {
          var i :| DecidedAt(preds[1..], columns, i, r);
          DecidedAtShift(preds, columns, i, r);
        }
      } else {
        assert DecidedAt(preds, columns, 0, TestAll(preds, columns));
      }
    }
  }

  /* ---------------------------------------------------------------- */
  /*  The filter                                                       */
  /* ---------------------------------------------------------------- */

  /** A filter: its delimiter, its predicates in registration order, and the
      largest column index registered so far (0 when none). */
  datatype LineFilter = LineFilter(delimiter: Delimiter, predicates: seq<Predicate>, splitLimit: nat)

  /** The largest registered column, or 0. */
  function MaxColumn(preds: seq<Predicate>): nat {
    if |preds| == 0 then 0
    else
      var m := MaxColumn(preds[..|preds| - 1]);
      if preds[|preds| - 1].column > m then preds[|preds| - 1].column else m
  }

  /** Every registered column lies within the split limit. */
  predicate Covers(f: LineFilter) {
    forall i :: 0 <= i < |f.predicates| ==> f.predicates[i].column <= f.splitLimit
  }

  /** The split limit of a filter built with `New` and `Add` is the running
      maximum of its columns. */
  ghost predicate Valid(f: LineFilter) {
    f.splitLimit == MaxColumn(f.predicates)
  }

  /** new LineFilter(delimiter) */
  function New(delimiter: Delimiter): (f: LineFilter)
    ensures f.predicates == [] && f.delimiter == delimiter
    ensures Valid(f)
    ensures forall line :: Matches(f, line) == Success(true)
  {
    LineFilter(delimiter, [], 0)
  }

  /** new LineFilter(): the default delimiter. */
  function NewDefault(): (f: LineFilter)
    ensures f.predicates == [] && f.delimiter == Const.DefaultDelimiter
    ensures forall line :: Matches(f, line) == Success(true)
  {
    New(Const.DefaultDelimiter)
  }

  /** filter(column, operand, value): the predicate goes to the end of the list
      and the split limit becomes the larger of itself and `column`. */
  function Add(f: LineFilter, column: int, op: Operator, value: Value): (g: LineFilter)
    ensures g.delimiter == f.delimiter
    ensures |g.predicates| == |f.predicates| + 1
    ensures g.predicates[..|f.predicates|] == f.predicates
    ensures g.predicates[|f.predicates|] == Predicate(column, op, value)
    ensures f.splitLimit <= g.splitLimit && column <= g.splitLimit
    ensures g.splitLimit == f.splitLimit || g.splitLimit == column
  {
    LineFilter(f.delimiter, f.predicates + [Predicate(column, op, value)],
               if column > f.splitLimit then column else f.splitLimit)
  }

  /** Adding a predicate keeps the split limit equal to the largest column. */
  lemma AddKeepsValid(f: LineFilter, column: int, op: Operator, value: Value)
    requires Valid(f)
    ensures Valid(Add(f, column, op, value))
  {
    var ps := Add(f, column, op, value).predicates;
    assert ps[..|ps| - 1] == f.predicates;
  }

  /** The running maximum bounds every registered column. */
  lemma {:induction false} ValidCovers(f: LineFilter)
    requires Valid(f)
    ensures Covers(f)
    decreases |f.predicates|
  {
    if |f.predicates| > 0 {
      var init := f.predicates[..|f.predicates| - 1];
      var g := LineFilter(f.delimiter, init, MaxColumn(init));
      ValidCovers(g);
    }
  }

  /** A predicate on a column within the limit sees the same verdict on the
      limited split as on the full split. */
  lemma TestWithinLimit(p: Predicate, line: string, d: string, limit: nat)
    requires |d| > 0 && p.column <= limit
    ensures Test(p, SplitLimit(line, d, limit + 2)) == Test(p, Split(line, d))
  {
    if 0 <= p.column {
      SplitLimitColumn(line, d, limit + 2, p.column);
    }
  }

  lemma {:induction false} TestAllWithinLimit(preds: seq<Predicate>, line: string, d: string, limit: nat)
    requires |d| > 0
    requires forall i :: 0 <= i < |preds| ==> preds[i].column <= limit
    ensures TestAll(preds, SplitLimit(line, d, limit + 2)) == TestAll(preds, Split(line, d))
  {
    if |preds| > 0 {
      TestWithinLimit(preds[0], line, d, limit);
      TestAllWithinLimit(preds[1..], line, d, limit);
    }
  }

  /** filter(line): true without predicates; otherwise the predicates in order
      against the line split into at most `splitLimit + 2` pieces. */
  function Matches(f: LineFilter, line: string): (r: Result<bool>)
    ensures |f.predicates| == 0 ==> r == Success(true)
  {
    if |f.predicates| == 0 then Success(true)
    else TestAll(f.predicates, SplitLimit(line, f.delimiter, f.splitLimit + 2))
  }

  /** The narrow split is only a shortcut: for a filter whose limit covers its
      columns, the verdict is that of every predicate against the fully split
      line. */
  lemma MatchesFullSplit(f: LineFilter, line: string)
    requires Covers(f)
    ensures Matches(f, line) == TestAll(f.predicates, Split(line, f.delimiter))
  {
    if |f.predicates| > 0 {
      TestAllWithinLimit(f.predicates, line, f.delimiter, f.splitLimit);
    }
  }

  /* ---------------------------------------------------------------- */
  /*  Filtering a list of lines                                        */
  /* ---------------------------------------------------------------- */

  /** `a` is `b` with some elements left out, order kept. */
  ghost predicate IsSubsequence(a: seq<string>, b: seq<string>)
    decreases |b|
  {
    if |a| == 0 then true
    else if |b| == 0 then false
    else (a[0] == b[0] && IsSubsequence(a[1..], b[1..])) || IsSubsequence(a, b[1..])
  }

  /** One step of `Keep`: the verdict on the first line in front of the
      lines kept from the rest. */
  lemma KeepStep(f: LineFilter, lines: seq<string>, keep: bool, rest: seq<string>)
    requires |lines| > 0
    requires Matches(f, lines[0]) == Success(keep)
    requires IsSubsequence(rest, lines[1..])
    requires forall x :: x in rest <==> x in lines[1..] && Matches(f, x) == Success(true)
    ensures IsSubsequence(if keep then [lines[0]] + rest else rest, lines)
    ensures forall x :: x in (if keep then [lines[0]] + rest else rest) <==>
                        x in lines && Matches(f, x) == Success(true)
  {
    assert lines == [lines[0]] + lines[1..];
    if keep {
      assert ([lines[0]] + rest)[1..] == rest;
    }
  }

  /** One step of `Keep`, counted: every line occurs in the kept lines as
      often as in the input when it matches, and not at all otherwise. */
  lemma KeepCountStep(f: LineFilter, lines: seq<string>, keep: bool, rest: seq<string>)
    requires |lines| > 0
    requires Matches(f, lines[0]) == Success(keep)
    requires forall x :: multiset(rest)[x] ==
                         if Matches(f, x) == Success(true) then multiset(lines[1..])[x] else 0
    ensures forall x :: multiset(if keep then [lines[0]] + rest else rest)[x] ==
                        if Matches(f, x) == Success(true) then multiset(lines)[x] else 0
  {
    assert lines == [lines[0]] + lines[1..];
    assert multiset(lines) == multiset{lines[0]} + multiset(lines[1..]);
  }

  /** The lines that pass the filter, in their original order; the first line
      whose evaluation raises stops the pass with that error. */
  function Keep(f: LineFilter, lines: seq<string>): (r: Result<seq<string>>)
    ensures r.Failure? ==> r.error in {NumberFormat, ColumnMissing}
    ensures r.Success? ==> |r.value| <= |lines|
  {
    if |lines| == 0 then Success([])
    else
      MatchesErrors(f, lines[0]);
      match Matches(f, lines[0])
      case Failure(e) => Failure(e)
      case Success(keep) =>
        match Keep(f, lines[1..])
        case Failure(e) => Failure(e)
        case Success(rest) => Success(if keep then [lines[0]] + rest else rest)
  }

  /** The pass succeeds exactly when no line raises, and then keeps, in order,
      exactly the lines that match, each as often as it occurs in the input. */
  lemma {:induction false} KeepMeaning(f: LineFilter, lines: seq<string>)
    ensures Keep(f, lines).Success? <==> forall i :: 0 <= i < |lines| ==> Matches(f, lines[i]).Success?
    ensures Keep(f, lines).Success? ==> IsSubsequence(Keep(f, lines).value, lines)
    ensures Keep(f, lines).Success? ==>
              forall x :: x in Keep(f, lines).value <==> x in lines && Matches(f, x) == Success(true)
    ensures Keep(f, lines).Success? ==>
              forall x :: multiset(Keep(f, lines).value)[x] ==
                          if Matches(f, x) == Success(true) then multiset(lines)[x] else 0
  {
    KeepCounts(f, lines);
    if |lines| > 0 {
      KeepMeaning(f, lines[1..]);
      assert forall i :: 1 <= i < |lines| ==> lines[1..][i - 1] == lines[i];
      var head, rest := Matches(f, lines[0]), Keep(f, lines[1..]);
      if head.Success? && rest.Success? {
        KeepStep(f, lines, head.value, rest.value);
      }
    }
  }

  /** A successful pass keeps every matching line as often as it occurs in
      the input, and no other line. */
  lemma {:induction false} KeepCounts(f: LineFilter, lines: seq<string>)
    ensures Keep(f, lines).Success? ==>
              forall x :: multiset(Keep(f, lines).value)[x] ==
                          if Matches(f, x) == Success(true) then multiset(lines)[x] else 0
  {
    if |lines| > 0 {
      KeepCounts(f, lines[1..]);
      var head, rest := Matches(f, lines[0]), Keep(f, lines[1..]);
      if head.Success? && rest.Success? {
        KeepCountStep(f, lines, head.value, rest.value);
      }
    }
  }

  /** A filter without predicates keeps every line. */
  lemma {:induction false} KeepWithoutPredicates(f: LineFilter, lines: seq<string>)
    requires |f.predicates| == 0
    ensures Keep(f, lines) == Success(lines)
  {
    if |lines| > 0 {
      KeepWithoutPredicates(f, lines[1..]);
      assert lines == [lines[0]] + lines[1..];
    }
  }

  /** A predicate raises only a missing column or a column that is not a number. */
  lemma {:induction false} TestAllErrors(preds: seq<Predicate>, columns: seq<string>)
    ensures TestAll(preds, columns).Failure? ==> TestAll(preds, columns).error in {NumberFormat, ColumnMissing}
  {
    if |preds| > 0 {
      TestAllErrors(preds[1..], columns);
    }
  }

  /** So does a filter. */
  lemma MatchesErrors(f: LineFilter, line: string)
    ensures Matches(f, line).Failure? ==> Matches(f, line).error in {NumberFormat, ColumnMissing}
  {
    if |f.predicates| > 0 {
      TestAllErrors(f.predicates, SplitLimit(line, f.delimiter, f.splitLimit + 2));
    }
  }

  /** Line `i` raises `e` and every line before it is judged without raising. */
  predicate RaisesAt(f: LineFilter, lines: seq<string>, i: int, e: Error) {
    0 <= i < |lines| && Matches(f, lines[i]) == Failure(e) &&
    forall j :: 0 <= j < i ==> Matches(f, lines[j]).Success?
  }

  lemma RaisesAtShift(f: LineFilter, lines: seq<string>, i: int, e: Error)
    requires |lines| > 0 && Matches(f, lines[0]).Success?
    requires RaisesAt(f, lines[1..], i, e)
    ensures RaisesAt(f, lines, i + 1, e)
  {
    forall j | 0 < j < i + 1
      ensures Matches(f, lines[j]).Success?
    {
      assert lines[j] == lines[1..][j - 1];
    }
  }

  /** A failed pass raises what the first line that raises raises. */
  lemma {:induction false} KeepFirstFailure(f: LineFilter, lines: seq<string>)
    ensures Keep(f, lines).Failure? ==> exists i :: RaisesAt(f, lines, i, Keep(f, lines).error)
  {
    if |lines| > 0 {
      if Matches(f, lines[0]).Success? {
        var r := Keep(f, lines[1..]);
        KeepFirstFailure(f, lines[1..]);
        if r.Failure? {
          var i :| RaisesAt(f, lines[1..], i, r.error);
          RaisesAtShift(f, lines, i, r.error);
        }
      } else {
        assert RaisesAt(f, lines, 0, Keep(f, lines).error);
      }
    }
  }
}
