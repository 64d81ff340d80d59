/** A match depends only on the text it spans (and, for the patterns that
    end in `\b`, on the character after it): more text after it, or for the
    timestamp patterns before it, leaves it a match with the same group. */
module MatchContext {
  import opened Text
  import opened Outcome
  import opened Patterns
  import opened PatternShapes

  lemma {:induction false} RunExtends(s: string, t: string, i: nat, j: nat, k: CharClass)
    requires RunOf(s, i, j, k)
    ensures RunOf(s + t, i, j, k)
  {
    forall m | i <= m < j
      ensures InClass((s + t)[m], k)
    {
      assert (s + t)[m] == s[m];
    }
  }

  lemma {:induction false} RunShifts(p: string, s: string, i: nat, j: nat, k: CharClass)
    requires RunOf(s, i, j, k)
    ensures RunOf(p + s, |p| + i, |p| + j, k)
  {
    forall m | |p| + i <= m < |p| + j
      ensures InClass((p + s)[m], k)
    {
      assert (p + s)[m] == s[m - |p|];
    }
  }

  lemma {:induction false} YearAtExtends(s: string, t: string, c: nat, e: nat)
    requires YearAt(s, c, e)
    ensures YearAt(s + t, c, e)
  {
    var y: nat :| YearSplit(s, c, y, e);
    RunExtends(s, t, c, y, Space);
    RunExtends(s, t, y, e, Digit);
    assert YearSplit(s + t, c, y, e);
  }

  // ---- the launch pattern ----

  lemma {:induction false} LaunchGroupExtends(s: string, t: string, g: nat, e: nat)
    requires LaunchGroupAt(s, g, e)
    ensures LaunchGroupAt(s + t, g, e)
  {
    var l: nat, d: nat :| MonthSplit(s, g, l, d) && DayYearAt(s, d, e);
    var w: nat, n: nat, c: nat :| DaySplit(s, d, w, n, c) && YearAt(s, c, e);
    YearAtBounds(s, c, e);
    RunExtends(s, t, g, l, Letter);
    RunExtends(s, t, d, w, Space);
    RunExtends(s, t, w, n, Digit);
    YearAtExtends(s, t, c, e);
    assert MonthSplit(s + t, g, l, d);
    assert DaySplit(s + t, d, w, n, c);
  }

  lemma {:induction false} LaunchMatchExtends(s: string, t: string, i: nat, g: nat, e: nat)
    requires LaunchMatchAt(s, i, g, e)
    ensures LaunchMatchAt(s + t, i, g, e)
  {
    var h := i + |LaunchLabelText|;
    assert (s + t)[i..h] == s[i..h];
    var a: nat, b: nat :| LabelGap(s, h, a, b, g);
    LaunchGroupStart(s, g, e);
    RunExtends(s, t, h, a, Space);
    RunExtends(s, t, b, g, Space);
    assert LabelGap(s + t, h, a, b, g);
    LaunchGroupExtends(s, t, g, e);
  }

  // ---- the day-month-year pattern ----

  /** Text that cannot continue a word, so a `\b` before it survives. */
  predicate StartsOffWord(t: string) {
    t == [] || !IsWordChar(t[0])
  }

  lemma {:induction false} MonthYearExtends(s: string, t: string, m: nat, e: nat)
    requires MonthYearAt(s, m, e) && StartsOffWord(t)
    ensures MonthYearAt(s + t, m, e)
  {
    var l: nat :| RunOf(s, m, l, Letter) && m < l && YearAt(s, l, e) && Boundary(s, e);
    YearAtBounds(s, l, e);
    RunExtends(s, t, m, l, Letter);
    YearAtExtends(s, t, l, e);
    assert (s + t)[e - 1] == s[e - 1];
    assert Boundary(s + t, e);
    assert RunOf(s + t, m, l, Letter) && m < l && YearAt(s + t, l, e) && Boundary(s + t, e);
  }

  lemma {:induction false} DayMonthYearExtends(s: string, t: string, i: nat, e: nat)
    requires DayMonthYearAt(s, i, e) && StartsOffWord(t)
    ensures DayMonthYearAt(s + t, i, e)
  {
    var n: nat, m: nat :| DayBlanks(s, i, n, m) && MonthYearAt(s, m, e);
    MonthYearAtBounds(s, m, e);
    RunExtends(s, t, i, n, Digit);
    RunExtends(s, t, n, m, Space);
    MonthYearExtends(s, t, m, e);
    assert (s + t)[i] == s[i];
    assert Boundary(s + t, i);
    assert DayBlanks(s + t, i, n, m);
  }

  // ---- the two timestamp patterns ----

  lemma {:induction false} TimestampBodyExtends(s: string, t: string, j: nat, sep: Option<char>, stop: char, a: nat, n: nat)
    requires TimestampBody(s, j, sep, stop, a, n)
    ensures TimestampBody(s + t, j, sep, stop, a, n)
  {
    match sep {
      case None =>
        RunExtends(s, t, j, a, Space);
      case Some(x) =>
        var q: nat :| SepGap(s, j, q, x, a);
        RunExtends(s, t, j, q, Space);
        RunExtends(s, t, q + 1, a, Space);
        assert SepGap(s + t, j, q, x, a);
    }
    RunExtends(s, t, a, n, Digit);
    var z: nat :| RunOf(s, n, z, Space) && z < |s| && s[z] == stop;
    RunExtends(s, t, n, z, Space);
    assert RunOf(s + t, n, z, Space) && z < |s + t| && (s + t)[z] == stop;
  }

  lemma {:induction false} TimestampBodyShifts(p: string, s: string, j: nat, sep: Option<char>, stop: char, a: nat, n: nat)
    requires TimestampBody(s, j, sep, stop, a, n)
    ensures TimestampBody(p + s, |p| + j, sep, stop, |p| + a, |p| + n)
  {
    match sep {
      case None =>
        RunShifts(p, s, j, a, Space);
      case Some(x) =>
        var q: nat :| SepGap(s, j, q, x, a);
        RunShifts(p, s, j, q, Space);
        RunShifts(p, s, q + 1, a, Space);
        assert SepGap(p + s, |p| + j, |p| + q, x, |p| + a);
    }
    RunShifts(p, s, a, n, Digit);
    var z: nat :| RunOf(s, n, z, Space) && z < |s| && s[z] == stop;
    RunShifts(p, s, n, z, Space);
    assert RunOf(p + s, |p| + n, |p| + z, Space) && |p| + z < |p + s| && (p + s)[|p| + z] == stop;
  }

  lemma {:induction false} TimestampExtends(s: string, t: string, i: nat, head: string, sep: Option<char>, stop: char, a: nat, n: nat)
    requires TimestampAt(s, i, head, sep, stop, a, n)
    ensures TimestampAt(s + t, i, head, sep, stop, a, n)
  {
    assert (s + t)[i..i + |head|] == s[i..i + |head|];
    TimestampBodyExtends(s, t, i + |head|, sep, stop, a, n);
  }

  lemma {:induction false} TimestampShifts(p: string, s: string, i: nat, head: string, sep: Option<char>, stop: char, a: nat, n: nat)
    requires TimestampAt(s, i, head, sep, stop, a, n)
    ensures TimestampAt(p + s, |p| + i, head, sep, stop, |p| + a, |p| + n)
  {
    assert (p + s)[|p| + i..|p| + i + |head|] == s[i..i + |head|];
    TimestampBodyShifts(p, s, i + |head|, sep, stop, a, n);
  }

  // ---- all four, and the search ----

  lemma {:induction false} LaunchMatchesExtends(s: string, t: string, i: nat, c: string)
    requires Matches(LaunchLabel, s, i, c)
    ensures Matches(LaunchLabel, s + t, i, c)
  {
    var g: nat, e: nat :| g <= e <= |s| && LaunchMatchAt(s, i, g, e) && c == s[g..e];
    LaunchMatchExtends(s, t, i, g, e);
    assert (s + t)[g..e] == s[g..e];
  }

  lemma {:induction false} DayMonthYearMatchesExtends(s: string, t: string, i: nat, c: string)
    requires Matches(DayMonthYear, s, i, c) && StartsOffWord(t)
    ensures Matches(DayMonthYear, s + t, i, c)
  {
    var e: nat :| i <= e <= |s| && DayMonthYearAt(s, i, e) && c == s[i..e];
    DayMonthYearExtends(s, t, i, e);
    assert (s + t)[i..e] == s[i..e];
  }

  /** The head, separator and stop character of a timestamp pattern. */
  function Head(p: Pattern): string {
    if p == GenesisCall then GenesisCallText else GenesisFieldText
  }

  function Sep(p: Pattern): Option<char> {
    if p == GenesisCall then None else Some('=')
  }

  function Stop(p: Pattern): char {
    if p == GenesisCall then ',' else ';'
  }

  lemma {:induction false} TimestampMatches(p: Pattern, s: string, i: nat, c: string)
    requires p == GenesisCall || p == GenesisField
    ensures Matches(p, s, i, c) <==>
      exists a: nat, n: nat :: a <= n <= |s| && TimestampAt(s, i, Head(p), Sep(p), Stop(p), a, n) && c == s[a..n]
  {
  }

  lemma {:induction false} TimestampMatchesExtends(p: Pattern, s: string, t: string, i: nat, c: string)
    requires p == GenesisCall || p == GenesisField
    requires Matches(p, s, i, c)
    ensures Matches(p, s + t, i, c)
  {
    TimestampMatches(p, s, i, c);
    var a: nat, n: nat :| a <= n <= |s| && TimestampAt(s, i, Head(p), Sep(p), Stop(p), a, n) && c == s[a..n];
    GroupExtends(p, s, t, i, a, n);
    TimestampMatches(p, s + t, i, c);
  }

  lemma {:induction false} GroupExtends(p: Pattern, s: string, t: string, i: nat, a: nat, n: nat)
    requires a <= n <= |s| && TimestampAt(s, i, Head(p), Sep(p), Stop(p), a, n)
    ensures TimestampAt(s + t, i, Head(p), Sep(p), Stop(p), a, n)
    ensures (s + t)[a..n] == s[a..n]
  {
    TimestampExtends(s, t, i, Head(p), Sep(p), Stop(p), a, n);
  }

  /** A match stays a match, with the same group, when more text follows
      it; the day-month-year pattern needs that text not to continue the
      year as a word. */
  lemma {:induction false} MatchesExtends(p: Pattern, s: string, t: string, i: nat, c: string)
    requires Matches(p, s, i, c)
    requires p == DayMonthYear ==> StartsOffWord(t)
    ensures Matches(p, s + t, i, c)
  {
    match p
    case LaunchLabel => LaunchMatchesExtends(s, t, i, c);
    case DayMonthYear => DayMonthYearMatchesExtends(s, t, i, c);
    case GenesisCall => TimestampMatchesExtends(p, s, t, i, c);
    case GenesisField => TimestampMatchesExtends(p, s, t, i, c);
  }

  /** A timestamp match stays a match, with the same group, when more text
      precedes it. */
  lemma {:induction false} MatchesShifts(p: Pattern, pre: string, s: string, i: nat, c: string)
    requires p == GenesisCall || p == GenesisField
    requires Matches(p, s, i, c)
    ensures Matches(p, pre + s, |pre| + i, c)
  {
    TimestampMatches(p, s, i, c);
    var a: nat, n: nat :| a <= n <= |s| && TimestampAt(s, i, Head(p), Sep(p), Stop(p), a, n) && c == s[a..n];
    GroupShifts(p, pre, s, i, a, n);
    TimestampMatches(p, pre + s, |pre| + i, c);
  }

  lemma {:induction false} GroupShifts(p: Pattern, pre: string, s: string, i: nat, a: nat, n: nat)
    requires a <= n <= |s| && TimestampAt(s, i, Head(p), Sep(p), Stop(p), a, n)
    ensures TimestampAt(pre + s, |pre| + i, Head(p), Sep(p), Stop(p), |pre| + a, |pre| + n)
    ensures (pre + s)[|pre| + a..|pre| + n] == s[a..n]
  {
    TimestampShifts(pre, s, i, Head(p), Sep(p), Stop(p), a, n);
  }

  /** A match anywhere from `i` on makes the search succeed, there or
      earlier. */
  lemma {:induction false} SearchFinds(p: Pattern, s: string, i: nat, k: nat, c: string)
    requires i <= k <= |s| && Matches(p, s, k, c)
    ensures Search(p, s, i).Some? && Search(p, s, i).value.0 <= k
  {
    MatchAtExact(p, s, k, c);
  }

  /** A match at the very start is what the search returns. */
  lemma {:induction false} SearchFromStart(p: Pattern, s: string, c: string)
    requires Matches(p, s, 0, c)
    ensures Search(p, s, 0) == Some((0, c))
  {
    SearchExact(p, s, 0, 0, c);
  }
}
