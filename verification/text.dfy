/** The parts of java.lang.String and java.lang.Integer the join engine relies on:
    `split` on a literal delimiter (with and without a limit), joining with a
    delimiter, `compareTo`, and `Integer.decode`. */
module Text {
  import opened Results

  /* ---------------------------------------------------------------- */
  /*  Occurrences of a delimiter                                       */
  /* ---------------------------------------------------------------- */

  /** A column delimiter, taken literally; never empty. */
  type Delimiter = d: string | |d| > 0 witness " "

  /** `d` occurs in `s` starting at index `i`. */
  predicate OccursAt(s: string, d: string, i: int) {
    0 <= i && i + |d| <= |s| && s[i..i + |d|] == d
  }

  /** `d` occurs nowhere in `p`. */
  ghost predicate Free(p: string, d: string) {
    forall i :: !OccursAt(p, d, i)
  }

  function IndexFrom(s: string, d: string, i: nat): (r: Option<nat>)
    requires |d| > 0 && i <= |s|
    ensures r.Some? ==> i <= r.value && OccursAt(s, d, r.value)
    ensures r.Some? ==> forall j :: i <= j < r.value ==> !OccursAt(s, d, j)
    ensures r.None? ==> forall j :: i <= j ==> !OccursAt(s, d, j)
    decreases |s| - i
  {
    if i + |d| > |s| then None
    else if s[i..i + |d|] == d then Some(i)
    else IndexFrom(s, d, i + 1)
  }

  /** The leftmost occurrence of `d` in `s`, as a regex matcher finds it. */
  function IndexOf(s: string, d: string): (r: Option<nat>)
    requires |d| > 0
    ensures r.Some? ==> OccursAt(s, d, r.value)
    ensures r.Some? ==> forall j :: 0 <= j < r.value ==> !OccursAt(s, d, j)
    ensures r.None? ==> Free(s, d)
  {
    IndexFrom(s, d, 0)
  }

  /** An occurrence with none before it is the one `IndexOf` finds. */
  lemma IndexOfIs(s: string, d: string, i: nat)
    requires |d| > 0
    requires OccursAt(s, d, i)
    requires forall j :: 0 <= j < i ==> !OccursAt(s, d, j)
    ensures IndexOf(s, d) == Some(i)
  {
  }

  /** A prefix that ends before the first occurrence contains none. */
  lemma PrefixFree(s: string, d: string, i: nat)
    requires |d| > 0 && i <= |s|
    requires forall j :: 0 <= j < i ==> !OccursAt(s, d, j)
    ensures Free(s[..i], d)
  {
    forall j
      ensures !OccursAt(s[..i], d, j)
    {
      if 0 <= j && j + |d| <= i {
        assert s[..i][j..j + |d|] == s[j..j + |d|];
        assert OccursAt(s[..i], d, j) ==> OccursAt(s, d, j);
      }
    }
  }

  /* ---------------------------------------------------------------- */
  /*  Joining and splitting                                            */
  /* ---------------------------------------------------------------- */

  /** The pieces with one `d` between neighbours (String.join). */
  function Join(parts: seq<string>, d: string): string {
    if |parts| == 0 then ""
    else if |parts| == 1 then parts[0]
    else parts[0] + d + Join(parts[1..], d)
  }

  lemma JoinCons(p: string, tail: seq<string>, d: string)
    requires |tail| >= 1
    ensures Join([p] + tail, d) == p + d + Join(tail, d)
  {
    assert ([p] + tail)[1..] == tail;
  }

  /** `split` with a negative limit: every piece between occurrences of `d`,
      trailing empty pieces kept. */
  function Split(s: string, d: string): (r: seq<string>)
    requires |d| > 0
    ensures |r| >= 1
    ensures forall k :: 0 <= k < |r| ==> Free(r[k], d)
    decreases |s|
  {
    match IndexOf(s, d)
    case None => [s]
    case Some(i) =>
      PrefixFree(s, d, i);
      [s[..i]] + Split(s[i + |d|..], d)
  }

  /** Splitting and re-joining gives the string back. */
  lemma {:induction false} JoinSplit(s: string, d: string)
    requires |d| > 0
    ensures Join(Split(s, d), d) == s
    decreases |s|
  {
    match IndexOf(s, d)
    case None =>
    case Some(i) =>
      var rest := s[i + |d|..];
      var tail := Split(rest, d);
      JoinSplit(rest, d);
      assert Split(s, d) == [s[..i]] + tail;
      JoinCons(s[..i], tail, d);
      assert s == s[..i] + d + rest;
  }

  /** For a one-character delimiter, joining delimiter-free pieces and
      splitting again gives the pieces back. */
  lemma {:induction false} SplitJoin(parts: seq<string>, d: string)
    requires |d| == 1 && |parts| >= 1
    requires forall k :: 0 <= k < |parts| ==> Free(parts[k], d)
    ensures Split(Join(parts, d), d) == parts
  {
    if |parts| > 1 {
      var p, t := parts[0], Join(parts[1..], d);
      var s := p + d + t;
      assert Join(parts, d) == s;
      forall j | 0 <= j < |p|
        ensures !OccursAt(s, d, j)
      {
        assert !OccursAt(p, d, j);
        assert s[j..j + 1] == p[j..j + 1];
      }
      assert s[|p|..|p| + 1] == d;
      IndexOfIs(s, d, |p|);
      assert s[..|p|] == p;
      assert s[|p| + 1..] == t;
      SplitJoin(parts[1..], d);
      assert parts == [p] + parts[1..];
    }
  }

  function Min(a: int, b: int): int {
    if a <= b then a else b
  }

  /** `split` with a positive limit `n`: at most `n` pieces, the last one holding
      the rest of the line; the pattern is applied at most `n - 1` times. */
  function SplitLimit(s: string, d: string, n: nat): seq<string>
    requires |d| > 0 && n >= 1
    decreases n
  {
    if n == 1 then [s]
    else
      match IndexOf(s, d)
      case None => [s]
      case Some(i) => [s[..i]] + SplitLimit(s[i + |d|..], d, n - 1)
  }

  /** The limited split has `n` pieces, or all pieces when there are fewer. */
  lemma {:induction false} SplitLimitLength(s: string, d: string, n: nat)
    requires |d| > 0 && n >= 1
    ensures |SplitLimit(s, d, n)| == Min(n, |Split(s, d)|)
    decreases n
  {
    if n > 1 {
      match IndexOf(s, d)
      case None =>
      case Some(i) => SplitLimitLength(s[i + |d|..], d, n - 1);
    }
  }

  /** Every piece but the last is a piece of the full split. */
  lemma {:induction false} SplitLimitPrefix(s: string, d: string, n: nat)
    requires |d| > 0 && n >= 1
    ensures forall k :: 0 <= k < |SplitLimit(s, d, n)| - 1 && k < |Split(s, d)| ==>
              SplitLimit(s, d, n)[k] == Split(s, d)[k]
    decreases n
  {
    if n > 1 {
      match IndexOf(s, d)
      case None =>
      case Some(i) => SplitLimitPrefix(s[i + |d|..], d, n - 1);
    }
  }

  /** A limited split that stops short of `n` pieces is the full split. */
  lemma {:induction false} SplitLimitShort(s: string, d: string, n: nat)
    requires |d| > 0 && n >= 1
    ensures |SplitLimit(s, d, n)| < n ==> SplitLimit(s, d, n) == Split(s, d)
    decreases n
  {
    if n > 1 {
      match IndexOf(s, d)
      case None =>
      case Some(i) => SplitLimitShort(s[i + |d|..], d, n - 1);
    }
  }

  /** A limited split and the full split agree on every column below the last
      allowed piece: such a column exists in one iff it exists in the other,
      and then it is the same, unmerged column. */
  lemma SplitLimitColumn(s: string, d: string, n: nat, k: int)
    requires |d| > 0 && n >= 1 && 0 <= k <= n - 2
    ensures k < |SplitLimit(s, d, n)| <==> k < |Split(s, d)|
    ensures k < |Split(s, d)| ==> SplitLimit(s, d, n)[k] == Split(s, d)[k]
  {
    SplitLimitLength(s, d, n);
    SplitLimitPrefix(s, d, n);
    SplitLimitShort(s, d, n);
  }

  /** The longest prefix of `xs` after which only empty strings follow. */
  function DropTrailingEmpty(xs: seq<string>): (r: seq<string>)
    ensures |r| <= |xs| && r == xs[..|r|]
    ensures |r| > 0 ==> r[|r| - 1] != ""
    ensures forall k :: |r| <= k < |xs| ==> xs[k] == ""
  {
    if |xs| == 0 then []
    else if xs[|xs| - 1] == "" then DropTrailingEmpty(xs[..|xs| - 1])
    else xs
  }

  /** `split` with limit 0: all pieces, trailing empty pieces removed, except
      that a line without any delimiter comes back whole (even when empty). */
  function SplitNoLimit(s: string, d: string): (r: seq<string>)
    requires |d| > 0
    ensures |r| <= |Split(s, d)| && r == Split(s, d)[..|r|]
    ensures |Split(s, d)| == 1 ==> r == [s]
    ensures |Split(s, d)| > 1 ==> |r| == 0 || r[|r| - 1] != ""
    ensures |Split(s, d)| > 1 ==> forall k :: |r| <= k < |Split(s, d)| ==> Split(s, d)[k] == ""
  {
    var full := Split(s, d);
    if |full| == 1 then [s] else DropTrailingEmpty(full)
  }

  /** Column `k` read from a no-limit split is the column a split limited to
      `k + 2` pieces yields. */
  lemma NoLimitColumn(s: string, d: string, k: nat)
    requires |d| > 0 && k < |SplitNoLimit(s, d)|
    ensures k < |SplitLimit(s, d, k + 2)|
    ensures SplitNoLimit(s, d)[k] == SplitLimit(s, d, k + 2)[k]
  {
    JoinSplit(s, d);
    SplitLimitColumn(s, d, k + 2, k);
  }

  /* ---------------------------------------------------------------- */
  /*  String.compareTo                                                 */
  /* ---------------------------------------------------------------- */

  /** The sign of `a.compareTo(b)`. */
  function Compare(a: string, b: string): (c: int)
    ensures -1 <= c <= 1
    ensures c == 0 <==> a == b
    decreases |a|
  {
    if |a| == 0 then (if |b| == 0 then 0 else -1)
    else if |b| == 0 then 1
    else if a[0] < b[0] then -1
    else if a[0] > b[0] then 1
    else
      assert a == [a[0]] + a[1..] && b == [b[0]] + b[1..];
      Compare(a[1..], b[1..])
  }

  /** Lexicographic order as String.compareTo documents it: the first differing
      character decides, and a proper prefix comes first. */
  ghost predicate LexLess(a: string, b: string) {
    || (exists k :: 0 <= k < |a| && k < |b| && a[..k] == b[..k] && a[k] < b[k])
    || (|a| < |b| && a == b[..|a|])
  }

  /** A first difference at `k` in favour of `b` makes `a` smaller. */
  lemma {:induction false} CompareAtDifference(a: string, b: string, k: nat)
    requires k < |a| && k < |b| && a[..k] == b[..k] && a[k] < b[k]
    ensures Compare(a, b) < 0
    decreases k
  {
    if k > 0 {
      assert a[0] == a[..k][0] && b[0] == b[..k][0];
      assert a[1..][..k - 1] == a[..k][1..] && b[1..][..k - 1] == b[..k][1..];
      CompareAtDifference(a[1..], b[1..], k - 1);
    }
  }

  /** A proper prefix is smaller. */
  lemma {:induction false} CompareProperPrefix(a: string, b: string)
    requires |a| < |b| && a == b[..|a|]
    ensures Compare(a, b) < 0
    decreases |a|
  {
    if |a| > 0 {
      assert a[0] == b[..|a|][0];
      assert a[1..] == b[1..][..|a| - 1];
      CompareProperPrefix(a[1..], b[1..]);
    }
  }

  /** A negative comparison has a first difference or a proper prefix behind it. */
  lemma {:induction false} LexLessOfCompare(a: string, b: string)
    requires Compare(a, b) < 0
    ensures LexLess(a, b)
    decreases |a|
  {
    if |a| == 0 {
      assert a == b[..0];
    } else if a[0] < b[0] {
      assert a[..0] == b[..0];
    } else {
      var a', b' := a[1..], b[1..];
      LexLessOfCompare(a', b');
      if exists k :: 0 <= k < |a'| && k < |b'| && a'[..k] == b'[..k] && a'[k] < b'[k] {
        var k :| 0 <= k < |a'| && k < |b'| && a'[..k] == b'[..k] && a'[k] < b'[k];
        assert a[..k + 1] == [a[0]] + a'[..k] && b[..k + 1] == [b[0]] + b'[..k];
        assert a[k + 1] == a'[k] && b[k + 1] == b'[k];
      } else {
        assert a == [a[0]] + a' && b[..|a|] == [b[0]] + b'[..|a'|];
      }
    }
  }

  /** The sign of compareTo is the documented lexicographic order. */
  lemma CompareIsLexicographic(a: string, b: string)
    ensures Compare(a, b) < 0 <==> LexLess(a, b)
  {
    if Compare(a, b) < 0 {
      LexLessOfCompare(a, b);
    }
    if LexLess(a, b) {
      if exists k :: 0 <= k < |a| && k < |b| && a[..k] == b[..k] && a[k] < b[k] {
        var k :| 0 <= k < |a| && k < |b| && a[..k] == b[..k] && a[k] < b[k];
        CompareAtDifference(a, b, k);
      } else {
        CompareProperPrefix(a, b);
      }
    }
  }

  /** compareTo is antisymmetric. */
  lemma {:induction false} CompareAntisymmetric(a: string, b: string)
    ensures Compare(a, b) == -Compare(b, a)
    decreases |a|
  {
    if |a| > 0 && |b| > 0 && a[0] == b[0] {
      CompareAntisymmetric(a[1..], b[1..]);
    }
  }

  /** compareTo is transitive. */
  lemma {:induction false} CompareTransitive(a: string, b: string, c: string)
    requires Compare(a, b) <= 0 && Compare(b, c) <= 0
    ensures Compare(a, c) <= 0
    decreases |a|
  {
    if |a| > 0 && |b| > 0 && |c| > 0 && a[0] == b[0] && b[0] == c[0] {
      CompareTransitive(a[1..], b[1..], c[1..]);
    }
  }

  /** Strict and non-strict steps chain to a strict one. */
  lemma CompareStrictTransitive(a: string, b: string, c: string)
    requires (Compare(a, b) < 0 && Compare(b, c) <= 0) || (Compare(a, b) <= 0 && Compare(b, c) < 0)
    ensures Compare(a, c) < 0
  {
    CompareTransitive(a, b, c);
    if a == c {
      CompareAntisymmetric(a, b);
      CompareTransitive(b, c, a);
    }
  }

  /* ---------------------------------------------------------------- */
  /*  Integer.decode                                                   */
  /* ---------------------------------------------------------------- */

  const IntMin: int := -0x8000_0000
  const IntMax: int := 0x7fff_ffff

  /** A Java `int`. */
  type Int32 = i: int | IntMin <= i <= IntMax

  predicate HasPrefix(s: string, p: string) {
    |p| <= |s| && s[..|p|] == p
  }

  /** Character.digit for ASCII letters and digits: the digit's value, or -1. */
  function DigitValue(c: char): int {
    if '0' <= c <= '9' then c as int - '0' as int
    else if 'a' <= c <= 'z' then c as int - 'a' as int + 10
    else if 'A' <= c <= 'Z' then c as int - 'A' as int + 10
    else -1
  }

  /** The value of a non-empty run of digits of `radix`, or None. */
  function ParseDigits(s: string, radix: nat): Option<nat>
    decreases |s|
  {
    if |s| == 0 then None
    else
      var v := DigitValue(s[|s| - 1]);
      if !(0 <= v < radix) then None
      else if |s| == 1 then Some(v)
      else
        match ParseDigits(s[..|s| - 1], radix)
        case None => None
        case Some(n) => Some(n * radix + v)
  }

  /** Integer.decode: an optional sign, then `0x`, `0X` or `#` for hexadecimal,
      a leading `0` (followed by more) for octal, decimal otherwise; the value
      must fit in an `int`. None stands for NumberFormatException. */
  function Decode(s: string): (r: Option<Int32>)
    ensures |s| == 0 ==> r.None?
  {
    if |s| == 0 then None
    else
      var negative := s[0] == '-';
      var start := if s[0] == '-' || s[0] == '+' then 1 else 0;
      var rest := s[start..];
      var (radix, digits) :=
        if HasPrefix(rest, "0x") || HasPrefix(rest, "0X") then (16, rest[2..])
        else if HasPrefix(rest, "#") then (16, rest[1..])
        else if HasPrefix(rest, "0") && |rest| > 1 then (8, rest[1..])
        else (10, rest);
      if |digits| > 0 && (digits[0] == '-' || digits[0] == '+') then None
      else
        match ParseDigits(digits, radix)
        case None => None
        case Some(n) =>
          var v: int := if negative then -(n as int) else n;
          if IntMin <= v <= IntMax then Some(v) else None
  }

  function DigitChar(n: nat): char
    requires n < 10
  {
    ('0' as int + n) as char
  }

  /** The decimal numeral of `n`, without leading zeros. */
  function NatDigits(n: nat): string
    decreases n
  {
    if n < 10 then [DigitChar(n)] else NatDigits(n / 10) + [DigitChar(n % 10)]
  }

  /** Integer.toString. */
  function Decimal(n: int): string {
    if n < 0 then "-" + NatDigits(-n) else NatDigits(n)
  }

  lemma {:induction false} ParseNatDigits(n: nat)
    ensures ParseDigits(NatDigits(n), 10) == Some(n)
    ensures |NatDigits(n)| >= 1
    ensures n > 0 ==> NatDigits(n)[0] != '0'
    ensures '0' <= NatDigits(n)[0] <= '9'
    decreases n
  {
    if n >= 10 {
      ParseNatDigits(n / 10);
      var s := NatDigits(n);
      assert s[..|s| - 1] == NatDigits(n / 10);
    }
  }

  /** Integer.decode reads back every `int` that Integer.toString prints. */
  lemma DecodeDecimal(n: Int32)
    ensures Decode(Decimal(n)) == Some(n)
  {
    var m: nat := if n < 0 then -(n as int) else n as int;
    ParseNatDigits(m);
    var s := Decimal(n);
    var rest := NatDigits(m);
    if n < 0 {
      assert s[1..] == rest;
    } else {
      assert s[0..] == rest;
    }
    assert !HasPrefix(rest, "0x") && !HasPrefix(rest, "0X") && !HasPrefix(rest, "#");
    assert !(HasPrefix(rest, "0") && |rest| > 1);
  }
}
