/** One table file read group by group: each `Advance` delivers the next run
    of consecutive lines that share the join-key column, each line projected
    and re-assembled for output. The file is given as its sequence of lines;
    the reader's position is an index into it and the one line read too far
    is kept as a look-ahead. */
module Relations {
  import opened Results
  import opened Text
  import Const

  /** The settings of one relation: join-key column, left or right role, the
      output columns, whether they were given explicitly, the columns dropped
      by default, and the delimiter. */
  datatype Config = Config(joinKey: int, isLeft: bool, format: seq<int>, withFormat: bool,
                           omit: set<int>, delimiter: Delimiter)

  /** new Relation(file, joinKey, isLeft, format, delimiter). The first entry
      of `format` decides whether the columns are given explicitly (anything
      but -1) or left to the role's default; an empty `format` has no first
      entry and raises. */
  function Open(joinKey: int, isLeft: bool, format: seq<int>, d: Delimiter): (r: Result<Config>)
    ensures r.Failure? <==> |format| == 0
    ensures r.Failure? ==> r.error == MissingFormat
    ensures r.Success? ==> r.value.joinKey == joinKey && r.value.isLeft == isLeft
    ensures r.Success? ==> r.value.format == format && r.value.delimiter == d
    ensures r.Success? ==> (r.value.withFormat <==> format[0] != -1)
    ensures r.Success? && isLeft ==> r.value.omit == {}
    ensures r.Success? && !isLeft ==> r.value.omit == {0, 1}
  {
    if |format| == 0 then Failure(MissingFormat)
    else
      var omit := if isLeft then Const.DefaultOmitLeftJoinKeys else Const.DefaultOmitRightJoinKeys;
      Success(Config(joinKey, isLeft, format, format[0] != -1, omit, d))
  }

  /** new Relation(file, joinKey, isLeft): every column, default delimiter. */
  function OpenDefault(joinKey: int, isLeft: bool): (r: Result<Config>)
    ensures r.Success? && !r.value.withFormat
    ensures r.value.delimiter == Const.DefaultDelimiter && r.value.joinKey == joinKey
  {
    OpenWithFormat(joinKey, isLeft, [-1])
  }

  /** new Relation(file, joinKey, isLeft, format): default delimiter. */
  function OpenWithFormat(joinKey: int, isLeft: bool, format: seq<int>): (r: Result<Config>)
    ensures r.Success? <==> |format| > 0
    ensures r.Success? ==> r.value.delimiter == Const.DefaultDelimiter && r.value.format == format
  {
    Open(joinKey, isLeft, format, Const.DefaultDelimiter)
  }

  /* ---------------------------------------------------------------- */
  /*  Formatting one line                                              */
  /* ---------------------------------------------------------------- */

  /** The columns at the given indices, in the given order; an index out of
      range raises. */
  function Pick(columns: seq<string>, idx: seq<int>): (r: Result<seq<string>>)
    ensures r.Success? <==> forall i :: 0 <= i < |idx| ==> 0 <= idx[i] < |columns|
    ensures r.Failure? ==> r.error == ColumnMissing
    ensures r.Success? ==> |r.value| == |idx|
    ensures r.Success? ==> forall i :: 0 <= i < |idx| ==> r.value[i] == columns[idx[i]]
  {
    if |idx| == 0 then Success([])
    else if !(0 <= idx[0] < |columns|) then Failure(ColumnMissing)
    else
      var rest :- Pick(columns, idx[1..]);
      assert forall i :: 1 <= i < |idx| ==> idx[1..][i - 1] == idx[i];
      Success([columns[idx[0]]] + rest)
  }

  /** The columns from index `i` on whose index is not in `omit`, in order. */
  function OmitFrom(columns: seq<string>, omit: set<int>, i: nat): (r: seq<string>)
    requires i <= |columns|
    ensures |r| <= |columns| - i
    decreases |columns| - i
  {
    if i == |columns| then []
    else (if i in omit then [] else [columns[i]]) + OmitFrom(columns, omit, i + 1)
  }

  /** Dropping nothing keeps every column. */
  lemma {:induction false} OmitNothing(columns: seq<string>, i: nat)
    requires i <= |columns|
    ensures OmitFrom(columns, {}, i) == columns[i..]
    decreases |columns| - i
  {
    if i < |columns| {
      OmitNothing(columns, i + 1);
      assert columns[i..] == [columns[i]] + columns[i + 1..];
    }
  }

  /** Dropping columns 0 and 1 keeps the columns from index 2 on. */
  lemma OmitFirstTwo(columns: seq<string>)
    ensures OmitFrom(columns, {0, 1}, 0) == columns[Min(2, |columns|)..]
  {
    OmitNothing(columns, Min(2, |columns|));
    assert forall i: nat :: 2 <= i <= |columns| ==> OmitFrom(columns, {0, 1}, i) == OmitFrom(columns, {}, i) by {
      forall i: nat | 2 <= i <= |columns|
        ensures OmitFrom(columns, {0, 1}, i) == OmitFrom(columns, {}, i)
      {
        OmitBeyond(columns, {0, 1}, i);
        OmitBeyond(columns, {}, i);
      }
    }
  }

  /** Past every omitted index, nothing more is dropped. */
  lemma {:induction false} OmitBeyond(columns: seq<string>, omit: set<int>, i: nat)
    requires i <= |columns|
    requires forall j :: j in omit ==> j < i
    ensures OmitFrom(columns, omit, i) == columns[i..]
    decreases |columns| - i
  {
    if i < |columns| {
      OmitBeyond(columns, omit, i + 1);
      assert columns[i..] == [columns[i]] + columns[i + 1..];
    }
  }

  /** The output columns of a line: those `format` names, or every column
      whose index the role does not drop. */
  function Project(cfg: Config, columns: seq<string>): (r: Result<seq<string>>)
    ensures !cfg.withFormat ==> r == Success(OmitFrom(columns, cfg.omit, 0))
    ensures cfg.withFormat ==> r == Pick(columns, cfg.format)
  {
    if cfg.withFormat then Pick(columns, cfg.format)
    else Success(OmitFrom(columns, cfg.omit, 0))
  }

  /** Every part followed by the delimiter, as the StringBuilder collects them. */
  function Terminated(parts: seq<string>, d: string): (r: string)
    ensures |parts| > 0 ==> r == Join(parts, d) + d
    ensures |parts| == 0 ==> r == ""
  {
    if |parts| == 0 then ""
    else
      var rest := Terminated(parts[1..], d);
      parts[0] + d + rest
  }

  /** format(columns): the projected columns, each followed by the delimiter;
      the right role then deletes the last character, which raises when there
      is none. */
  function FormatRow(cfg: Config, columns: seq<string>): (r: Result<string>)
    ensures Project(cfg, columns).Failure? ==> r == Failure(Project(cfg, columns).error)
    ensures r.Failure? ==> r.error in {ColumnMissing, EmptyRightRow}
  {
    var parts :- Project(cfg, columns);
    var sb := Terminated(parts, cfg.delimiter);
    if cfg.isLeft then Success(sb)
    else if |sb| == 0 then Failure(EmptyRightRow)
    else Success(sb[..|sb| - 1])
  }

  /** A left row is its columns joined, with a trailing delimiter. */
  lemma FormatLeft(cfg: Config, columns: seq<string>)
    requires cfg.isLeft && Project(cfg, columns).Success?
    ensures var parts := Project(cfg, columns).value;
            FormatRow(cfg, columns) == Success(if parts == [] then "" else Join(parts, cfg.delimiter) + cfg.delimiter)
  {
  }

  /** A right row with a one-character delimiter is its columns joined; with
      no columns to output it raises. */
  lemma FormatRight(cfg: Config, columns: seq<string>)
    requires !cfg.isLeft && |cfg.delimiter| == 1 && Project(cfg, columns).Success?
    ensures var parts := Project(cfg, columns).value;
            FormatRow(cfg, columns) == if parts == [] then Failure(EmptyRightRow)
                                       else Success(Join(parts, cfg.delimiter))
  {
    var parts := Project(cfg, columns).value;
    if parts != [] {
      var j := Join(parts, cfg.delimiter);
      assert (j + cfg.delimiter)[..|j + cfg.delimiter| - 1] == j;
    }
  }

  /** Without a format, the left role keeps every column and the right role
      drops the first two. */
  lemma DefaultProjection(cfg: Config, columns: seq<string>)
    requires !cfg.withFormat
    requires cfg.omit == (if cfg.isLeft then Const.DefaultOmitLeftJoinKeys else Const.DefaultOmitRightJoinKeys)
    ensures cfg.isLeft ==> Project(cfg, columns) == Success(columns)
    ensures !cfg.isLeft ==> Project(cfg, columns) == Success(columns[Min(2, |columns|)..])
  {
    if cfg.isLeft {
      OmitNothing(columns, 0);
    } else {
      OmitFirstTwo(columns);
    }
  }

  /* ---------------------------------------------------------------- */
  /*  Rows                                                             */
  /* ---------------------------------------------------------------- */

  /** A formatted line with its join-key value. */
  datatype Row = Row(line: string, key: string)

  /** `line.split(delimiter)[joinKey]`: the split drops trailing empty
      columns, so a key in a trailing empty column is missing. */
  function KeyOf(cfg: Config, line: string): (k: Option<string>)
    ensures cfg.joinKey < 0 ==> k.None?
    ensures k.Some? ==> 0 <= cfg.joinKey < |Split(line, cfg.delimiter)| &&
                        k.value == Split(line, cfg.delimiter)[cfg.joinKey]
  {
    var columns := SplitNoLimit(line, cfg.delimiter);
    if 0 <= cfg.joinKey < |columns| then Some(columns[cfg.joinKey]) else None
  }

  /** The key exists when the column survives the dropping of trailing empty
      columns, and it is that column of the full split. */
  lemma KeyOfColumn(cfg: Config, line: string)
    ensures KeyOf(cfg, line).Some? <==> 0 <= cfg.joinKey < |SplitNoLimit(line, cfg.delimiter)|
    ensures KeyOf(cfg, line).Some? ==> KeyOf(cfg, line).value == Split(line, cfg.delimiter)[cfg.joinKey]
  {
  }

  /** The row one line yields, or what it raises. */
  function RowOf(cfg: Config, line: string): (r: Result<Row>)
    ensures KeyOf(cfg, line).None? ==> r == Failure(ColumnMissing)
    ensures r.Success? ==> r.value.key == KeyOf(cfg, line).value
  {
    match KeyOf(cfg, line)
    case None => Failure(ColumnMissing)
    case Some(key) =>
      var text :- FormatRow(cfg, SplitNoLimit(line, cfg.delimiter));
      Success(Row(text, key))
  }

  /** Every line has its key column and formats without raising. */
  predicate AllParse(cfg: Config, lines: seq<string>) {
    forall i :: 0 <= i < |lines| ==> RowOf(cfg, lines[i]).Success?
  }

  /** The rows of lines that all parse, one per line, in order. */
  function RowsOf(cfg: Config, lines: seq<string>): (rows: seq<Row>)
    requires AllParse(cfg, lines)
    ensures |rows| == |lines|
  {
    if |lines| == 0 then []
    else
      assert forall i :: 1 <= i < |lines| ==> lines[1..][i - 1] == lines[i];
      [RowOf(cfg, lines[0]).value] + RowsOf(cfg, lines[1..])
  }

  /** Row `i` is the row of line `i`. */
  lemma {:induction false} RowsOfIndex(cfg: Config, lines: seq<string>)
    requires AllParse(cfg, lines)
    ensures forall i :: 0 <= i < |lines| ==> RowsOf(cfg, lines)[i] == RowOf(cfg, lines[i]).value
  {
    if |lines| > 0 {
      assert forall i :: 1 <= i < |lines| ==> lines[1..][i - 1] == lines[i];
      RowsOfIndex(cfg, lines[1..]);
    }
  }

  lemma RowsOfSuffix(cfg: Config, lines: seq<string>, n: nat)
    requires AllParse(cfg, lines) && n <= |lines|
    ensures AllParse(cfg, lines[n..])
    ensures RowsOf(cfg, lines[n..]) == RowsOf(cfg, lines)[n..]
  {
    assert forall i :: 0 <= i < |lines| - n ==> lines[n..][i] == lines[n + i];
    RowsOfIndex(cfg, lines);
    RowsOfIndex(cfg, lines[n..]);
  }

  /* ---------------------------------------------------------------- */
  /*  Runs of equal keys                                               */
  /* ---------------------------------------------------------------- */

  /** The number of leading rows whose key is `k`. */
  function RunLen(rows: seq<Row>, k: string): (n: nat)
    ensures n <= |rows|
    ensures forall i :: 0 <= i < n ==> rows[i].key == k
    ensures n < |rows| ==> rows[n].key != k
  {
    if |rows| == 0 || rows[0].key != k then 0
    else 1 + RunLen(rows[1..], k)
  }

  /** The rows cut into maximal runs of equal keys. */
  function Groups(rows: seq<Row>): (gs: seq<seq<Row>>)
    ensures forall g :: g in gs ==> |g| > 0
    decreases |rows|
  {
    if |rows| == 0 then []
    else
      var n := RunLen(rows, rows[0].key);
      [rows[..n]] + Groups(rows[n..])
  }

  function Flatten(gs: seq<seq<Row>>): seq<Row> {
    if |gs| == 0 then [] else gs[0] + Flatten(gs[1..])
  }

  lemma FlattenCons(g: seq<Row>, gs: seq<seq<Row>>)
    ensures Flatten([g] + gs) == g + Flatten(gs)
  {
    assert ([g] + gs)[1..] == gs;
  }

  /** Rejoining a cut sequence; stated apart so that the proof of
      `FlattenGroups` does not search for it among its other sequence facts. */
  lemma Cut(rows: seq<Row>, n: nat)
    requires n <= |rows|
    ensures rows[..n] + rows[n..] == rows
  {
  }

  /** Cutting into runs loses, adds and reorders nothing. */
  lemma {:induction false} FlattenGroups(rows: seq<Row>)
    ensures Flatten(Groups(rows)) == rows
    decreases |rows|
  {
    if |rows| > 0 {
      var n := RunLen(rows, rows[0].key);
      var gs := Groups(rows[n..]);
      FlattenGroups(rows[n..]);
      assert Groups(rows) == [rows[..n]] + gs;
      FlattenCons(rows[..n], gs);
      Cut(rows, n);
    }
  }

  /** Every run shares one key, and neighbouring runs have different keys. */
  lemma {:induction false} GroupsShape(rows: seq<Row>)
    ensures forall i, j :: 0 <= i < |Groups(rows)| && 0 <= j < |Groups(rows)[i]| ==>
              Groups(rows)[i][j].key == Groups(rows)[i][0].key
    ensures forall i :: 0 < i < |Groups(rows)| ==> Groups(rows)[i][0].key != Groups(rows)[i - 1][0].key
    decreases |rows|
  {
    if |rows| > 0 {
      var n := RunLen(rows, rows[0].key);
      var gs: seq<seq<Row>> := Groups(rows);
      var tail: seq<seq<Row>> := Groups(rows[n..]);
      GroupsShape(rows[n..]);
      assert gs == [rows[..n]] + tail;
      if |tail| > 0 {
        assert tail[0][0] == rows[n];
      }
      forall i | 0 < i < |gs|
        ensures gs[i][0].key != gs[i - 1][0].key
      {
        assert gs[i] == tail[i - 1];
      }
    }
  }

  /* ---------------------------------------------------------------- */
  /*  The reader                                                       */
  /* ---------------------------------------------------------------- */

  /** The reading state: the file, the index of the next line to read, the
      line read too far (if any), the end-of-file flag and the current run. */
  datatype Scanner = Scanner(cfg: Config, lines: seq<string>, pos: nat, lookahead: Option<string>,
                             eof: bool, group: seq<Row>)

  ghost predicate Valid(sc: Scanner) {
    sc.pos <= |sc.lines| && (sc.eof ==> sc.lookahead.None? && sc.pos == |sc.lines|)
  }

  /** The lines not yet consumed: the look-ahead, then the unread lines. */
  function Pending(sc: Scanner): seq<string>
    requires sc.pos <= |sc.lines|
  {
    (if sc.lookahead.Some? then [sc.lookahead.value] else []) + sc.lines[sc.pos..]
  }

  /** What is left to do: the pending lines, and one more call while the end
      of the file has not been seen. */
  function Work(sc: Scanner): nat
    requires sc.pos <= |sc.lines|
  {
    |Pending(sc)| + (if sc.eof then 0 else 1)
  }

  /** The next line to process: the look-ahead if there is one, else the
      next unread line. */
  function NextLine(sc: Scanner): (line: string)
    requires sc.pos <= |sc.lines| && |Pending(sc)| > 0
    ensures line == Pending(sc)[0]
  {
    if sc.lookahead.Some? then sc.lookahead.value else sc.lines[sc.pos]
  }

  /** The state once `NextLine` has been taken. */
  function Taken(sc: Scanner): (r: Scanner)
    requires Valid(sc) && !sc.eof && |Pending(sc)| > 0
    ensures Valid(r) && !r.eof && r.lookahead.None?
    ensures r.cfg == sc.cfg && r.lines == sc.lines && r.group == sc.group
    ensures Pending(sc) == [NextLine(sc)] + Pending(r)
    ensures Pending(r) == Pending(sc)[1..]
    ensures r.pos == (if sc.lookahead.Some? then sc.pos else sc.pos + 1)
  {
    if sc.lookahead.Some? then sc.(lookahead := None)
    else
      assert sc.lines[sc.pos..] == [sc.lines[sc.pos]] + sc.lines[sc.pos + 1..];
      sc.(pos := sc.pos + 1)
  }

  /** The scanner of a freshly opened file. */
  function Start(cfg: Config, lines: seq<string>): (sc: Scanner)
    ensures Valid(sc) && !sc.eof && Pending(sc) == lines && sc.group == []
  {
    assert lines[0..] == lines;
    Scanner(cfg, lines, 0, None, false, [])
  }

  /** The loop of advance(): read the next line (the look-ahead first), stop
      at the end of the file, stop and keep the line when its key differs
      from the run's, otherwise format it and add it to the run. */
  function Collect(sc: Scanner, prevKey: Option<string>): (r: Result<Scanner>)
    requires Valid(sc) && !sc.eof
    requires prevKey.Some? ==> sc.lookahead.None?
    ensures r.Success? ==> Valid(r.value) && r.value.cfg == sc.cfg && r.value.lines == sc.lines
    ensures r.Success? ==> |Pending(r.value)| + |r.value.group| == |Pending(sc)| + |sc.group|
    ensures r.Success? ==> sc.group <= r.value.group
    ensures r.Success? ==> (r.value.eof <==> |Pending(r.value)| == 0)
    ensures r.Success? && prevKey.None? && |Pending(sc)| > 0 ==> |r.value.group| > |sc.group|
    ensures r.Failure? ==> r.error in {ColumnMissing, EmptyRightRow}
    decreases |sc.lines| - sc.pos, sc.lookahead.Some?
  {
    if sc.lookahead.None? && sc.pos == |sc.lines| then
      Success(sc.(eof := true))
    else
      var line := NextLine(sc);
      var rest := Taken(sc);
      match KeyOf(sc.cfg, line)
      case None => Failure(ColumnMissing)
      case Some(key) =>
        if prevKey.Some? && prevKey.value != key then
          Success(rest.(lookahead := Some(line)))
        else
          var text :- FormatRow(sc.cfg, SplitNoLimit(line, sc.cfg.delimiter));
          Collect(rest.(group := rest.group + [Row(text, key)]), Some(key))
  }

  /** The outcome of advance(): the new state and whether a run was found. */
  datatype Step = Step(scanner: Scanner, hasNext: bool)

  /** advance(): empty the run; at end of file report false; otherwise collect
      the next run and report whether it has any rows. */
  function Advance(sc: Scanner): (r: Result<Step>)
    requires Valid(sc)
    ensures r.Success? ==> Valid(r.value.scanner)
    ensures r.Success? ==> r.value.scanner.cfg == sc.cfg && r.value.scanner.lines == sc.lines
    ensures r.Success? ==> (r.value.hasNext <==> |r.value.scanner.group| > 0)
    ensures r.Success? ==> (r.value.hasNext <==> !sc.eof && |Pending(sc)| > 0)
    ensures r.Success? && !r.value.hasNext ==> r.value.scanner.eof
    ensures r.Success? && r.value.hasNext ==> Work(r.value.scanner) < Work(sc)
    ensures sc.eof ==> r.Success?
    ensures r.Failure? ==> r.error in {ColumnMissing, EmptyRightRow}
  {
    if sc.eof then Success(Step(sc.(group := []), false))
    else
      var next :- Collect(sc.(group := []), None);
      Success(Step(next, |next.group| > 0))
  }

  /** Once the end is reached, advance() keeps reporting false and changes
      nothing more. */
  lemma AdvanceAfterEnd(sc: Scanner)
    requires Valid(sc) && Advance(sc).Success? && !Advance(sc).value.hasNext
    ensures Advance(Advance(sc).value.scanner) == Advance(sc)
  {
  }

  /** One turn of the loop on a line that has its key column: a different
      key ends the run and the line becomes the look-ahead; otherwise the
      line is formatted, which may raise, and joins the run. */
  lemma CollectStep(sc: Scanner, prevKey: Option<string>)
    requires Valid(sc) && !sc.eof && |Pending(sc)| > 0
    requires prevKey.Some? ==> sc.lookahead.None?
    requires KeyOf(sc.cfg, NextLine(sc)).Some?
    ensures var key := KeyOf(sc.cfg, NextLine(sc)).value;
            prevKey.Some? && prevKey.value != key ==>
              Collect(sc, prevKey) == Success(Taken(sc).(lookahead := Some(NextLine(sc))))
    ensures var key := KeyOf(sc.cfg, NextLine(sc)).value;
            var row := RowOf(sc.cfg, NextLine(sc));
            !(prevKey.Some? && prevKey.value != key) && row.Success? ==>
              Collect(sc, prevKey) == Collect(Taken(sc).(group := sc.group + [row.value]), Some(key))
    ensures var key := KeyOf(sc.cfg, NextLine(sc)).value;
            !(prevKey.Some? && prevKey.value != key) && RowOf(sc.cfg, NextLine(sc)).Failure? ==>
              Collect(sc, prevKey).Failure?
  {
  }

  /** How many pending rows join the run: those with the run's key, where a
      new run takes the key of its first row. */
  function RunAhead(rows: seq<Row>, prevKey: Option<string>): (n: nat)
    ensures n <= |rows|
    ensures prevKey.None? && |rows| > 0 ==> n > 0
  {
    if prevKey.Some? then RunLen(rows, prevKey.value)
    else if |rows| == 0 then 0
    else RunLen(rows, rows[0].key)
  }

  /** `Collect` turned `n` pending lines into the rows `rows[..n]`. */
  ghost predicate Collected(sc: Scanner, prevKey: Option<string>, rows: seq<Row>, n: nat)
    requires Valid(sc) && !sc.eof && (prevKey.Some? ==> sc.lookahead.None?)
    requires n <= |rows| && n <= |Pending(sc)|
  {
    && Collect(sc, prevKey).Success?
    && Collect(sc, prevKey).value.group == sc.group + rows[..n]
    && Pending(Collect(sc, prevKey).value) == Pending(sc)[n..]
  }

  /** A line of another key ends the run and is kept for the next one. */
  lemma CollectStops(sc: Scanner, prevKey: Option<string>)
    requires Valid(sc) && !sc.eof && |Pending(sc)| > 0
    requires prevKey.Some? && sc.lookahead.None?
    requires KeyOf(sc.cfg, NextLine(sc)).Some?
    requires KeyOf(sc.cfg, NextLine(sc)).value != prevKey.value
    ensures Collect(sc, prevKey).Success?
    ensures Collect(sc, prevKey).value.group == sc.group
    ensures Pending(Collect(sc, prevKey).value) == Pending(sc)
  {
    CollectStep(sc, prevKey);
  }

  /** The run that `Collect` builds from lines that all parse: the rows of
      the leading pending lines whose key is the run's key (the first pending
      line's key when the run is new). */
  lemma {:induction false} CollectRun(sc: Scanner, prevKey: Option<string>)
    requires Valid(sc) && !sc.eof
    requires prevKey.Some? ==> sc.lookahead.None?
    requires AllParse(sc.cfg, Pending(sc))
    ensures Collected(sc, prevKey, RowsOf(sc.cfg, Pending(sc)), RunAhead(RowsOf(sc.cfg, Pending(sc)), prevKey))
    decreases |sc.lines| - sc.pos, sc.lookahead.Some?
  {
    var P := Pending(sc);
    var rows := RowsOf(sc.cfg, P);
    if |P| == 0 {
      assert Collect(sc, prevKey) == Success(sc.(eof := true));
      assert rows[..0] == [];
    } else if prevKey.Some? && prevKey.value != rows[0].key {
      CollectStops(sc, prevKey);
      assert rows[..0] == [];
    } else {
      var row := rows[0];
      var next := Taken(sc).(group := sc.group + [row]);
      CollectStep(sc, prevKey);
      assert Pending(next) == P[1..];
      RowsOfSuffix(sc.cfg, P, 1);
      CollectRun(next, Some(row.key));
      TakeRun(sc, prevKey, rows, next);
    }
  }

  /** A run goes on through its first row. */
  lemma RunAheadStep(rows: seq<Row>, prevKey: Option<string>)
    requires |rows| > 0 && !(prevKey.Some? && prevKey.value != rows[0].key)
    ensures var m := RunAhead(rows[1..], Some(rows[0].key));
            && RunAhead(rows, prevKey) == 1 + m
            && rows[..1 + m] == [rows[0]] + rows[1..][..m]
  {
    var m := RunAhead(rows[1..], Some(rows[0].key));
    assert rows[..1 + m] == [rows[0]] + rows[1..][..m];
  }

  lemma DropDrop(p: seq<string>, m: nat)
    requires 1 + m <= |p|
    ensures p[1..][m..] == p[1 + m..]
  {
  }

  /** Regrouping a concatenation; stated apart so that the proof of `TakeRun`
      does not search for it among its other sequence facts. */
  lemma AppendAssoc(a: seq<Row>, b: seq<Row>, c: seq<Row>)
    ensures a + b + c == a + (b + c)
  {
  }

  /** Taking one row and then the rest of its run is taking the whole run. */
  lemma TakeRun(sc: Scanner, prevKey: Option<string>, rows: seq<Row>, next: Scanner)
    requires Valid(sc) && !sc.eof && (prevKey.Some? ==> sc.lookahead.None?)
    requires |rows| == |Pending(sc)| > 0
    requires !(prevKey.Some? && prevKey.value != rows[0].key)
    requires Valid(next) && !next.eof && next.lookahead.None?
    requires Pending(next) == Pending(sc)[1..] && next.group == sc.group + [rows[0]]
    requires Collect(sc, prevKey) == Collect(next, Some(rows[0].key))
    requires Collected(next, Some(rows[0].key), rows[1..], RunAhead(rows[1..], Some(rows[0].key)))
    ensures Collected(sc, prevKey, rows, RunAhead(rows, prevKey))
  {
    var m := RunAhead(rows[1..], Some(rows[0].key));
    var c := Collect(next, Some(rows[0].key)).value;
    assert c.group == sc.group + [rows[0]] + rows[1..][..m];
    assert Pending(c) == Pending(sc)[1..][m..];
    RunAheadStep(rows, prevKey);
    AppendAssoc(sc.group, [rows[0]], rows[1..][..m]);
    DropDrop(Pending(sc), m);
  }

  /** From lines that all parse, advance() delivers exactly the first run of
      equal keys and leaves the other runs pending. */
  lemma AdvanceGroups(sc: Scanner)
    requires Valid(sc) && !sc.eof && AllParse(sc.cfg, Pending(sc))
    ensures var rows := RowsOf(sc.cfg, Pending(sc));
            var r := Advance(sc);
            && r.Success?
            && AllParse(sc.cfg, Pending(r.value.scanner))
            && (r.value.hasNext <==> |rows| > 0)
            && (|rows| > 0 ==> r.value.scanner.group == Groups(rows)[0])
            && (|rows| > 0 ==> Groups(RowsOf(sc.cfg, Pending(r.value.scanner))) == Groups(rows)[1..])
  {
    var rows := RowsOf(sc.cfg, Pending(sc));
    var sc0 := sc.(group := []);
    assert Pending(sc0) == Pending(sc);
    CollectRun(sc0, None);
    var n := RunAhead(rows, None);
    RowsOfSuffix(sc.cfg, Pending(sc), n);
    assert [] + rows[..n] == rows[..n];
  }

  /** The runs still to come, for lines that all parse. */
  ghost function View(sc: Scanner): seq<seq<Row>>
    requires sc.pos <= |sc.lines| && AllParse(sc.cfg, Pending(sc))
  {
    Groups(RowsOf(sc.cfg, Pending(sc)))
  }

  /** advance() on lines that all parse takes the next run off the runs to come. */
  lemma AdvanceView(sc: Scanner)
    requires Valid(sc) && AllParse(sc.cfg, Pending(sc))
    ensures Advance(sc).Success?
    ensures AllParse(sc.cfg, Pending(Advance(sc).value.scanner))
    ensures Advance(sc).value.hasNext ==>
              [Advance(sc).value.scanner.group] + View(Advance(sc).value.scanner) == View(sc)
    ensures !Advance(sc).value.hasNext ==> View(sc) == []
  {
    if !sc.eof {
      AdvanceGroups(sc);
      var gs := View(sc);
      if |gs| > 0 {
        assert gs == [gs[0]] + gs[1..];
      }
    }
  }

  /** Every run, in order, until advance() reports false. */
  function Drain(sc: Scanner): (r: Result<seq<seq<Row>>>)
    requires Valid(sc)
    ensures r.Success? ==> forall g :: g in r.value ==> |g| > 0
    decreases Work(sc)
  {
    var step :- Advance(sc);
    if !step.hasNext then Success([])
    else
      var rest :- Drain(step.scanner);
      Success([step.scanner.group] + rest)
  }

  /** Reading a relation whose lines all parse yields its rows cut into runs
      of equal keys. */
  lemma {:induction false} DrainIsGroups(sc: Scanner)
    requires Valid(sc) && AllParse(sc.cfg, Pending(sc))
    ensures Drain(sc) == Success(Groups(RowsOf(sc.cfg, Pending(sc))))
    decreases Work(sc)
  {
    if !sc.eof {
      AdvanceGroups(sc);
      var step := Advance(sc).value;
      if step.hasNext {
        DrainIsGroups(step.scanner);
      }
    }
  }

  /** A file read to the end comes back as its rows, in order, each once. */
  lemma RelationRows(cfg: Config, lines: seq<string>)
    requires AllParse(cfg, lines)
    ensures Drain(Start(cfg, lines)).Success?
    ensures Flatten(Drain(Start(cfg, lines)).value) == RowsOf(cfg, lines)
  {
    DrainIsGroups(Start(cfg, lines));
    FlattenGroups(RowsOf(cfg, lines));
  }

  /** What a successful `Collect` consumed: the first `k` pending lines, all
      of which parse, where `k` is the number of rows it added. */
  ghost predicate Consumed(sc: Scanner, r: Scanner)
    requires sc.pos <= |sc.lines| && r.pos <= |r.lines|
  {
    var k := |r.group| - |sc.group|;
    && 0 <= k <= |Pending(sc)|
    && Pending(r) == Pending(sc)[k..]
    && forall i :: 0 <= i < k ==> RowOf(sc.cfg, Pending(sc)[i]).Success?
  }

  /** A state that added no rows and kept the pending lines consumed nothing. */
  lemma ConsumedNone(sc: Scanner, r: Scanner)
    requires sc.pos <= |sc.lines| && r.pos <= |r.lines|
    requires r.group == sc.group && Pending(r) == Pending(sc)
    ensures Consumed(sc, r)
  {
  }

  /** Putting the line just taken back as the look-ahead restores the pending lines. */
  lemma PutBack(sc: Scanner)
    requires Valid(sc) && !sc.eof && sc.lookahead.None? && |Pending(sc)| > 0
    ensures Pending(Taken(sc).(lookahead := Some(NextLine(sc)))) == Pending(sc)
  {
  }

  lemma {:induction false} CollectConsumes(sc: Scanner, prevKey: Option<string>)
    requires Valid(sc) && !sc.eof && (prevKey.Some? ==> sc.lookahead.None?)
    requires Collect(sc, prevKey).Success?
    ensures Consumed(sc, Collect(sc, prevKey).value)
    decreases |sc.lines| - sc.pos, sc.lookahead.Some?
  {
    var P := Pending(sc);
    var r := Collect(sc, prevKey).value;
    if |P| == 0 {
      assert r == sc.(eof := true);
      ConsumedNone(sc, r);
    } else {
      var line := NextLine(sc);
      var key := KeyOf(sc.cfg, line).value;
      CollectStep(sc, prevKey);
      if prevKey.Some? && prevKey.value != key {
        PutBack(sc);
        ConsumedNone(sc, r);
      } else {
        var next := Taken(sc).(group := sc.group + [RowOf(sc.cfg, line).value]);
        assert r == Collect(next, Some(key)).value;
        CollectConsumes(next, Some(key));
        ConsumedAfterRow(sc, next, r);
      }
    }
  }

  /** A parsed line taken into the run, then what the rest of the loop consumed. */
  lemma ConsumedAfterRow(sc: Scanner, next: Scanner, r: Scanner)
    requires sc.pos <= |sc.lines| && next.pos <= |next.lines| && r.pos <= |r.lines|
    requires |Pending(sc)| > 0 && RowOf(sc.cfg, Pending(sc)[0]).Success?
    requires Pending(next) == Pending(sc)[1..] && next.cfg == sc.cfg && |next.group| == |sc.group| + 1
    requires Consumed(next, r)
    ensures Consumed(sc, r)
  {
    var P := Pending(sc);
    var k := |r.group| - |next.group|;
    assert Pending(r) == P[1..][k..];
    ConsumedStep(sc.cfg, P, k, Pending(r));
  }

  /** One parsed line followed by `k` more consumed lines. */
  lemma ConsumedStep(cfg: Config, p: seq<string>, k: nat, rest: seq<string>)
    requires |p| > 0 && RowOf(cfg, p[0]).Success?
    requires k <= |p| - 1 && rest == p[1..][k..]
    requires forall i :: 0 <= i < k ==> RowOf(cfg, p[1..][i]).Success?
    ensures rest == p[k + 1..]
    ensures forall i :: 0 <= i < k + 1 ==> RowOf(cfg, p[i]).Success?
  {
    DropDrop(p, k);
    forall i | 0 < i < k + 1
      ensures RowOf(cfg, p[i]).Success?
    {
      assert p[i] == p[1..][i - 1];
    }
  }

  /** When the first `k` lines parse and some line does not, some line after
      them does not. */
  lemma FailureBeyond(cfg: Config, p: seq<string>, k: nat)
    requires k <= |p| && !AllParse(cfg, p)
    requires forall i :: 0 <= i < k ==> RowOf(cfg, p[i]).Success?
    ensures !AllParse(cfg, p[k..])
  {
    var i :| 0 <= i < |p| && RowOf(cfg, p[i]).Failure?;
    assert p[k..][i - k] == p[i];
  }

  /** An error after the first run is an error of the whole read. */
  lemma DrainStep(sc: Scanner)
    requires Valid(sc) && Advance(sc).Success? && Advance(sc).value.hasNext
    requires Drain(Advance(sc).value.scanner).Failure?
    ensures Drain(sc).Failure?
  {
  }

  /** A line that does not parse makes reading to the end raise. */
  lemma {:induction false} DrainFails(sc: Scanner)
    requires Valid(sc) && !AllParse(sc.cfg, Pending(sc))
    ensures Drain(sc).Failure?
    decreases Work(sc)
  {
    if !sc.eof && |Pending(sc)| > 0 {
      var sc0 := sc.(group := []);
      assert Pending(sc0) == Pending(sc);
      var c := Collect(sc0, None);
      if c.Success? {
        CollectConsumes(sc0, None);
        FailureBeyond(sc.cfg, Pending(sc), |c.value.group|);
        DrainFails(c.value);
        DrainStep(sc);
      }
    }
  }

  /** Reading a whole file succeeds exactly when every line parses. */
  lemma DrainSucceedsIffAllParse(cfg: Config, lines: seq<string>)
    ensures Drain(Start(cfg, lines)).Success? <==> AllParse(cfg, lines)
  {
    if AllParse(cfg, lines) {
      DrainIsGroups(Start(cfg, lines));
    } else {
      DrainFails(Start(cfg, lines));
    }
  }
}
