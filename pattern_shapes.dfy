/** What each of the four patterns means, stated the way a regular
    expression is read: a match at `i` is any way of cutting the text into
    the pieces the pattern lists, each piece of the right class and length.
    A backtracking engine may pick any such cut; the lemmas here show that
    there is at most one capture to pick, and that it is the one the greedy
    matchers of `Patterns` return. */
module PatternShapes {
  import opened Text
  import opened Outcome
  import opened Patterns

  /** `s[i..j]` is a run of class `k`, possibly empty. */
  predicate RunOf(s: string, i: nat, j: nat, k: CharClass) {
    i <= j <= |s| && forall m :: i <= m < j ==> InClass(s[m], k)
  }

  /** `\b` at `k`: a word character on exactly one side of it. */
  predicate Boundary(s: string, k: nat) {
    k <= |s| && ((0 < k && IsWordChar(s[k - 1])) != (k < |s| && IsWordChar(s[k])))
  }

  /** `x?` spans `s[i..j]`. */
  predicate OptionalSpan(s: string, i: nat, j: nat, x: char) {
    j == i || (j == i + 1 && i < |s| && s[i] == x)
  }

  // ---- pieces shared by the launch and day-month-year patterns ----

  /** `\s+\d{4}` spans `s[c..e]`, the blanks ending at `y`. */
  predicate YearSplit(s: string, c: nat, y: nat, e: nat) {
    RunOf(s, c, y, Space) && c < y && RunOf(s, y, e, Digit) && e == y + 4
  }

  ghost predicate YearAt(s: string, c: nat, e: nat) {
    exists y: nat :: YearSplit(s, c, y, e)
  }

  // ---- the launch pattern ----

  /** `\s+\d{1,2},?` spans `s[d..c]`: blanks up to `w`, one or two digits
      up to `n`, an optional comma. */
  predicate DaySplit(s: string, d: nat, w: nat, n: nat, c: nat) {
    && RunOf(s, d, w, Space) && d < w
    && RunOf(s, w, n, Digit) && w < n <= w + 2
    && OptionalSpan(s, n, c, ',')
  }

  /** `\s+\d{1,2},?\s+\d{4}` spans `s[d..e]`. */
  ghost predicate DayYearAt(s: string, d: nat, e: nat) {
    exists w: nat, n: nat, c: nat :: DaySplit(s, d, w, n, c) && YearAt(s, c, e)
  }

  /** `[A-Za-z]+\.?` spans `s[g..d]`, the letters ending at `l`. */
  predicate MonthSplit(s: string, g: nat, l: nat, d: nat) {
    RunOf(s, g, l, Letter) && g < l && OptionalSpan(s, l, d, '.')
  }

  /** `[A-Za-z]+\.?\s+\d{1,2},?\s+\d{4}`, the date group, spans `s[g..e]`. */
  ghost predicate LaunchGroupAt(s: string, g: nat, e: nat) {
    exists l: nat, d: nat :: MonthSplit(s, g, l, d) && DayYearAt(s, d, e)
  }

  /** `\s*[:,]?\s*` spans `s[h..g]`: blanks up to `a`, an optional `:` or
      `,` up to `b`, blanks up to `g`. */
  predicate LabelGap(s: string, h: nat, a: nat, b: nat, g: nat) {
    && RunOf(s, h, a, Space)
    && (b == a || (b == a + 1 && a < |s| && (s[a] == ':' || s[a] == ',')))
    && RunOf(s, b, g, Space)
  }

  /** Everything after the label: the gap from `h`, then the date group
      `s[g..e]`. */
  ghost predicate LaunchTailAt(s: string, h: nat, g: nat, e: nat) {
    (exists a: nat, b: nat :: LabelGap(s, h, a, b, g)) && LaunchGroupAt(s, g, e)
  }

  /** The launch pattern, ignoring case, at `i` with its group `s[g..e]`. */
  ghost predicate LaunchMatchAt(s: string, i: nat, g: nat, e: nat) {
    OccursAtIgnoringCase(s, LaunchLabelText, i) && LaunchTailAt(s, i + |LaunchLabelText|, g, e)
  }

  // ---- the day-month-year pattern ----

  /** `[A-Za-z]+\s+\d{4}\b` spans `s[m..e]`, the letters ending at `l`. */
  ghost predicate MonthYearAt(s: string, m: nat, e: nat) {
    exists l: nat :: RunOf(s, m, l, Letter) && m < l && YearAt(s, l, e) && Boundary(s, e)
  }

  /** `\d{1,2}\s+` spans `s[i..m]`, the digits ending at `n`. */
  predicate DayBlanks(s: string, i: nat, n: nat, m: nat) {
    RunOf(s, i, n, Digit) && i < n <= i + 2 && RunOf(s, n, m, Space) && n < m
  }

  /** `\b\d{1,2}\s+[A-Za-z]+\s+\d{4}\b` spans `s[i..e]`. */
  ghost predicate DayMonthYearAt(s: string, i: nat, e: nat) {
    Boundary(s, i) && exists n: nat, m: nat :: DayBlanks(s, i, n, m) && MonthYearAt(s, m, e)
  }

  // ---- the two timestamp patterns ----

  /** `\s*<x>\s*` spans `s[j..a]`, with `x` at `q`. */
  predicate SepGap(s: string, j: nat, q: nat, x: char, a: nat) {
    RunOf(s, j, q, Space) && q < |s| && s[q] == x && RunOf(s, q + 1, a, Space)
  }

  /** Between the head and the digits: `\s*`, or `\s*<sep>\s*` with a
      separator. */
  ghost predicate HeadGap(s: string, j: nat, sep: Option<char>, a: nat) {
    match sep
    case None => RunOf(s, j, a, Space)
    case Some(x) => exists q: nat :: SepGap(s, j, q, x, a)
  }

  /** `\s*<stop>` at `n`. */
  ghost predicate StopFollows(s: string, n: nat, stop: char) {
    exists z: nat :: RunOf(s, n, z, Space) && z < |s| && s[z] == stop
  }

  /** `<gap>(\d{9,10})\s*<stop>` from `j`, with its group `s[a..n]`. */
  ghost predicate TimestampBody(s: string, j: nat, sep: Option<char>, stop: char, a: nat, n: nat) {
    && HeadGap(s, j, sep, a)
    && RunOf(s, a, n, Digit) && a + 9 <= n <= a + 10
    && StopFollows(s, n, stop)
  }

  /** `<head><gap>(\d{9,10})\s*<stop>` at `i`, with its group `s[a..n]`. */
  ghost predicate TimestampAt(s: string, i: nat, head: string, sep: Option<char>, stop: char, a: nat, n: nat) {
    OccursAt(s, head, i) && TimestampBody(s, i + |head|, sep, stop, a, n)
  }

  /** A character the blanks and digits around it cannot swallow. */
  predicate Delimiter(x: char) {
    !IsSpace(x) && !IsDigit(x)
  }

  // ---- all four ----

  /** Pattern `p` matches at `i` with group `c`. */
  ghost predicate Matches(p: Pattern, s: string, i: nat, c: string) {
    match p
    case LaunchLabel => exists g: nat, e: nat :: g <= e <= |s| && LaunchMatchAt(s, i, g, e) && c == s[g..e]
    case DayMonthYear => exists e: nat :: i <= e <= |s| && DayMonthYearAt(s, i, e) && c == s[i..e]
    case GenesisCall =>
      exists a: nat, n: nat :: a <= n <= |s| && TimestampAt(s, i, GenesisCallText, None, ',', a, n) && c == s[a..n]
    case GenesisField =>
      exists a: nat, n: nat :: a <= n <= |s| && TimestampAt(s, i, GenesisFieldText, Some('='), ';', a, n) && c == s[a..n]
  }

  // ---- runs and the greedy helpers ----

  lemma {:induction false} FourDigitsRun(s: string, y: nat)
    ensures FourDigitsAt(s, y) <==> RunOf(s, y, y + 4, Digit)
  {
    if y + 4 <= |s| {
      assert forall m :: y <= m < y + 4 ==> s[m] == s[y..y + 4][m - y];
    }
  }

  /** A run of at most `max` digits followed by a non-digit is what
      `TakeDigits` takes. */
  lemma {:induction false} TakeDigitsExact(s: string, i: nat, j: nat, max: nat)
    requires RunOf(s, i, j, Digit) && j <= i + max
    requires j == |s| || !IsDigit(s[j])
    ensures TakeDigits(s, i, max) == j
    decreases max
  {
    if i < j {
      TakeDigitsExact(s, i + 1, j, max - 1);
    }
  }

  /** A non-empty run of blanks followed by something else is what
      `Blanks` takes. */
  lemma {:induction false} BlanksExact(s: string, i: nat, j: nat)
    requires RunOf(s, i, j, Space) && i < j
    requires j == |s| || !IsSpace(s[j])
    ensures Blanks(s, i) == Some(j)
  {
    SkipExact(s, i, j, Space);
  }

  // ---- `\s+\d{4}` ----

  lemma {:induction false} YearEndExact(s: string, c: nat, e: nat)
    requires c <= |s|
    ensures YearEnd(s, c) == Some(e) <==> YearAt(s, c, e)
  {
    var y := Skip(s, c, Space);
    FourDigitsRun(s, y);
    if YearEnd(s, c) == Some(e) {
      assert YearSplit(s, c, y, e);
    }
    if YearAt(s, c, e) {
      var y0: nat :| YearSplit(s, c, y0, e);
      assert IsDigit(s[y0]);
      BlanksExact(s, c, y0);
      FourDigitsRun(s, y0);
    }
  }

  lemma {:induction false} YearAtBounds(s: string, c: nat, e: nat)
    requires YearAt(s, c, e)
    ensures c + 5 <= e <= |s| && IsSpace(s[c]) && IsDigit(s[e - 1])
  {
    var y: nat :| YearSplit(s, c, y, e);
  }

  // ---- the launch pattern ----

  lemma {:induction false} DayYearEndExact(s: string, d: nat, e: nat)
    requires d <= |s|
    ensures DayYearEnd(s, d) == Some(e) <==> DayYearAt(s, d, e)
  {
    if DayYearEnd(s, d) == Some(e) {
      var w := Skip(s, d, Space);
      var n := TakeDigits(s, w, 2);
      var c := Optional(s, n, ',');
      YearEndExact(s, c, e);
      assert DaySplit(s, d, w, n, c);
    }
    if DayYearAt(s, d, e) {
      var w: nat, n: nat, c: nat :| DaySplit(s, d, w, n, c) && YearAt(s, c, e);
      DaySplitForced(s, d, w, n, c, e);
    }
  }

  lemma {:induction false} DaySplitForced(s: string, d: nat, w: nat, n: nat, c: nat, e: nat)
    requires DaySplit(s, d, w, n, c) && YearAt(s, c, e)
    ensures DayYearEnd(s, d) == Some(e)
  {
    YearAtBounds(s, c, e);
    assert IsDigit(s[w]);
    BlanksExact(s, d, w);
    assert s[n] == ',' || IsSpace(s[n]);
    TakeDigitsExact(s, w, n, 2);
    YearEndExact(s, c, e);
  }

  lemma {:induction false} DayYearAtBounds(s: string, d: nat, e: nat)
    requires DayYearAt(s, d, e)
    ensures d < e <= |s| && IsSpace(s[d])
  {
    var w: nat, n: nat, c: nat :| DaySplit(s, d, w, n, c) && YearAt(s, c, e);
    YearAtBounds(s, c, e);
  }

  /** `LaunchDateEnd` finds exactly the ends of the date group. */
  lemma {:induction false} LaunchGroupExact(s: string, g: nat, e: nat)
    requires g <= |s|
    ensures LaunchDateEnd(s, g) == Some(e) <==> LaunchGroupAt(s, g, e)
  {
    if LaunchDateEnd(s, g) == Some(e) {
      LaunchGroupGreedy(s, g, e);
    }
    if LaunchGroupAt(s, g, e) {
      LaunchGroupForced(s, g, e);
    }
  }

  lemma {:induction false} LaunchGroupGreedy(s: string, g: nat, e: nat)
    requires g <= |s| && LaunchDateEnd(s, g) == Some(e)
    ensures LaunchGroupAt(s, g, e)
  {
    var l := Skip(s, g, Letter);
    var d := Optional(s, l, '.');
    assert DayYearEnd(s, d) == Some(e);
    DayYearEndExact(s, d, e);
    assert MonthSplit(s, g, l, d);
  }

  lemma {:induction false} LaunchGroupForced(s: string, g: nat, e: nat)
    requires LaunchGroupAt(s, g, e)
    ensures g <= |s| && LaunchDateEnd(s, g) == Some(e)
  {
    var l: nat, d: nat :| MonthSplit(s, g, l, d) && DayYearAt(s, d, e);
    assert Skip(s, g, Letter) == l by {
      DayYearAtBounds(s, d, e);
      assert s[l] == '.' || IsSpace(s[l]);
      SkipExact(s, g, l, Letter);
    }
    assert Optional(s, l, '.') == d by {
      DayYearAtBounds(s, d, e);
    }
    assert DayYearEnd(s, d) == Some(e) by {
      DayYearEndExact(s, d, e);
    }
  }

  /** The date group starts with a letter. */
  lemma {:induction false} LaunchGroupStart(s: string, g: nat, e: nat)
    requires LaunchGroupAt(s, g, e)
    ensures g < e <= |s| && IsLetter(s[g])
  {
    var l: nat, d: nat :| MonthSplit(s, g, l, d) && DayYearAt(s, d, e);
    DayYearAtBounds(s, d, e);
  }

  /** Any cut of the gap before a letter ends where the greedy one does. */
  lemma {:induction false} LabelGapForced(s: string, h: nat, a: nat, b: nat, g: nat)
    requires LabelGap(s, h, a, b, g) && g < |s| && IsLetter(s[g])
    ensures LabelGapEnd(s, h) == g
  {
    var a' := Skip(s, h, Space);
    if a < a' {
      assert IsSpace(s[a]);
      SkipExact(s, h, g, Space);
      SkipExact(s, g, g, Space);
    } else {
      assert a == a';
      assert b == a || (s[a] == ':' || s[a] == ',');
      SkipExact(s, b, g, Space);
    }
  }

  lemma {:induction false} LabelGapGreedy(s: string, h: nat)
    requires h <= |s|
    ensures exists a: nat, b: nat :: LabelGap(s, h, a, b, LabelGapEnd(s, h))
  {
    var a := Skip(s, h, Space);
    var b := if a < |s| && (s[a] == ':' || s[a] == ',') then a + 1 else a;
    assert LabelGap(s, h, a, b, LabelGapEnd(s, h));
  }

  /** The launch pattern after its label: the greedy matcher returns `c`
      exactly when some cut of the gap and the date group captures `c`. */
  lemma {:induction false} LaunchAfterLabelExact(s: string, h: nat, c: string)
    requires h <= |s|
    ensures LaunchAfterLabel(s, h) == Some(c) <==>
      exists g: nat, e: nat :: g <= e <= |s| && LaunchTailAt(s, h, g, e) && c == s[g..e]
  {
    var g := LabelGapEnd(s, h);
    if LaunchAfterLabel(s, h) == Some(c) {
      var e := LaunchDateEnd(s, g).value;
      LaunchGroupExact(s, g, e);
      LabelGapGreedy(s, h);
      assert g <= e <= |s| && LaunchTailAt(s, h, g, e) && c == s[g..e];
    }
    if exists g0: nat, e0: nat :: g0 <= e0 <= |s| && LaunchTailAt(s, h, g0, e0) && c == s[g0..e0] {
      var g0: nat, e0: nat :| g0 <= e0 <= |s| && LaunchTailAt(s, h, g0, e0) && c == s[g0..e0];
      var a0: nat, b0: nat :| LabelGap(s, h, a0, b0, g0);
      LaunchGroupStart(s, g0, e0);
      LabelGapForced(s, h, a0, b0, g0);
      LaunchGroupExact(s, g0, e0);
    }
  }

  /** The whole launch pattern at `i`. */
  lemma {:induction false} MatchLaunchExact(s: string, i: nat, c: string)
    requires i <= |s|
    ensures MatchLaunch(s, i) == Some(c) <==>
      exists g: nat, e: nat :: g <= e <= |s| && LaunchMatchAt(s, i, g, e) && c == s[g..e]
  {
    if OccursAtIgnoringCase(s, LaunchLabelText, i) {
      LaunchAfterLabelExact(s, i + |LaunchLabelText|, c);
    }
  }

  // ---- the day-month-year pattern ----

  lemma {:induction false} MonthYearEndExact(s: string, m: nat, e: nat)
    requires m <= |s|
    ensures MonthYearEnd(s, m) == Some(e) <==> MonthYearAt(s, m, e)
  {
    var l := Skip(s, m, Letter);
    if MonthYearEnd(s, m) == Some(e) {
      YearEndExact(s, l, e);
      YearAtBounds(s, l, e);
      assert RunOf(s, m, l, Letter) && m < l && YearAt(s, l, e) && Boundary(s, e);
    }
    if MonthYearAt(s, m, e) {
      var l0: nat :| RunOf(s, m, l0, Letter) && m < l0 && YearAt(s, l0, e) && Boundary(s, e);
      YearAtBounds(s, l0, e);
      SkipExact(s, m, l0, Letter);
      YearEndExact(s, l0, e);
    }
  }

  lemma {:induction false} MonthYearAtBounds(s: string, m: nat, e: nat)
    requires MonthYearAt(s, m, e)
    ensures m < e <= |s| && IsLetter(s[m])
  {
    var l: nat :| RunOf(s, m, l, Letter) && m < l && YearAt(s, l, e) && Boundary(s, e);
    YearAtBounds(s, l, e);
  }

  /** `\b(\d{1,2}\s+[A-Za-z]+\s+\d{4})\b`: the greedy matcher returns `c`
      exactly when some cut of the pattern at `i` spans `c`. */
  lemma {:induction false} DayMonthYearExact(s: string, i: nat, c: string)
    requires i <= |s|
    ensures MatchDayMonthYear(s, i) == Some(c) <==>
      exists e: nat :: i <= e <= |s| && DayMonthYearAt(s, i, e) && c == s[i..e]
  {
    var n := TakeDigits(s, i, 2);
    var m := Skip(s, n, Space);
    if MatchDayMonthYear(s, i) == Some(c) {
      var e := MonthYearEnd(s, m).value;
      MonthYearEndExact(s, m, e);
      assert IsDigit(s[i]);
      assert DayBlanks(s, i, n, m);
      assert i <= e <= |s| && DayMonthYearAt(s, i, e) && c == s[i..e];
    }
    if exists e: nat :: i <= e <= |s| && DayMonthYearAt(s, i, e) && c == s[i..e] {
      var e: nat :| i <= e <= |s| && DayMonthYearAt(s, i, e) && c == s[i..e];
      var n0: nat, m0: nat :| DayBlanks(s, i, n0, m0) && MonthYearAt(s, m0, e);
      DayBlanksForced(s, i, n0, m0, e);
    }
  }

  lemma {:induction false} DayBlanksForced(s: string, i: nat, n: nat, m: nat, e: nat)
    requires Boundary(s, i) && DayBlanks(s, i, n, m) && MonthYearAt(s, m, e)
    ensures MatchDayMonthYear(s, i) == Some(s[i..e])
  {
    MonthYearAtBounds(s, m, e);
    assert IsDigit(s[i]) && IsSpace(s[n]);
    TakeDigitsExact(s, i, n, 2);
    BlanksExact(s, n, m);
    MonthYearEndExact(s, m, e);
  }

  // ---- the two timestamp patterns ----

  /** The greedy gap after the head is a gap that stops before a blank. */
  lemma {:induction false} SepGapGreedy(s: string, j: nat, sep: Option<char>, a: nat)
    requires j <= |s| && SepGapEnd(s, j, sep) == Some(a)
    ensures HeadGap(s, j, sep, a) && (a == |s| || !IsSpace(s[a]))
  {
    var h := Skip(s, j, Space);
    if sep.Some? {
      assert SepGap(s, j, h, sep.value, a);
    }
  }

  /** Any cut of the gap before a digit ends where the greedy one does. */
  lemma {:induction false} SepGapForced(s: string, j: nat, sep: Option<char>, a: nat)
    requires j <= |s| && HeadGap(s, j, sep, a) && a < |s| && IsDigit(s[a])
    requires sep.Some? ==> Delimiter(sep.value)
    ensures SepGapEnd(s, j, sep) == Some(a)
  {
    match sep
    case None =>
      SkipExact(s, j, a, Space);
    case Some(x) =>
      var q: nat :| SepGap(s, j, q, x, a);
      SkipExact(s, j, q, Space);
      SkipExact(s, q + 1, a, Space);
  }

  lemma {:induction false} StopsAtExact(s: string, n: nat, stop: char)
    requires n <= |s| && !IsSpace(stop)
    ensures StopsAt(s, n, stop) <==> StopFollows(s, n, stop)
  {
    var z := Skip(s, n, Space);
    if StopsAt(s, n, stop) {
      assert RunOf(s, n, z, Space) && z < |s| && s[z] == stop;
    }
    if StopFollows(s, n, stop) {
      var z0: nat :| RunOf(s, n, z0, Space) && z0 < |s| && s[z0] == stop;
      SkipExact(s, n, z0, Space);
    }
  }

  lemma {:induction false} StopFollowsStart(s: string, n: nat, stop: char)
    requires StopFollows(s, n, stop)
    ensures n < |s| && (s[n] == stop || IsSpace(s[n]))
  {
    var z: nat :| RunOf(s, n, z, Space) && z < |s| && s[z] == stop;
  }

  lemma {:induction false} TimestampForced(s: string, j: nat, sep: Option<char>, stop: char, a: nat, n: nat)
    requires j <= |s| && TimestampBody(s, j, sep, stop, a, n)
    requires Delimiter(stop) && (sep.Some? ==> Delimiter(sep.value))
    ensures SepGapEnd(s, j, sep) == Some(a) && TakeDigits(s, a, 10) == n && StopsAt(s, n, stop)
  {
    assert SepGapEnd(s, j, sep) == Some(a) by {
      assert IsDigit(s[a]);
      SepGapForced(s, j, sep, a);
    }
    assert TakeDigits(s, a, 10) == n by {
      StopFollowsStart(s, n, stop);
      TakeDigitsExact(s, a, n, 10);
    }
    StopsAtExact(s, n, stop);
  }

  lemma {:induction false} TimestampGreedy(s: string, j: nat, sep: Option<char>, stop: char, a: nat, n: nat)
    requires j <= |s| && SepGapEnd(s, j, sep) == Some(a) && !IsSpace(stop)
    requires TakeDigits(s, a, 10) == n && a + 9 <= n && StopsAt(s, n, stop)
    ensures TimestampBody(s, j, sep, stop, a, n)
  {
    SepGapGreedy(s, j, sep, a);
    StopsAtExact(s, n, stop);
  }

  /** A timestamp pattern after its head: the greedy matcher returns `c`
      exactly when some cut of the rest has `c` as its group, provided the
      separator and the stop character are neither blanks nor digits. */
  lemma {:induction false} TimestampBodyExact(s: string, j: nat, sep: Option<char>, stop: char, c: string)
    requires j <= |s|
    requires Delimiter(stop) && (sep.Some? ==> Delimiter(sep.value))
    ensures TimestampAfterHead(s, j, sep, stop) == Some(c) <==>
      exists a: nat, n: nat :: a <= n <= |s| && TimestampBody(s, j, sep, stop, a, n) && c == s[a..n]
  {
    if TimestampAfterHead(s, j, sep, stop) == Some(c) {
      var a := SepGapEnd(s, j, sep).value;
      var n := TakeDigits(s, a, 10);
      TimestampGreedy(s, j, sep, stop, a, n);
      assert a <= n <= |s| && TimestampBody(s, j, sep, stop, a, n) && c == s[a..n];
    }
    if exists a: nat, n: nat :: a <= n <= |s| && TimestampBody(s, j, sep, stop, a, n) && c == s[a..n] {
      var a: nat, n: nat :| a <= n <= |s| && TimestampBody(s, j, sep, stop, a, n) && c == s[a..n];
      TimestampForced(s, j, sep, stop, a, n);
    }
  }

  /** `<head>\s*(\d{9,10})\s*<stop>`, with or without a separator: the
      greedy matcher returns `c` exactly when some cut of the pattern at
      `i` has `c` as its group. */
  lemma {:induction false} TimestampExact(s: string, i: nat, head: string, sep: Option<char>, stop: char, c: string)
    requires i <= |s|
    requires Delimiter(stop) && (sep.Some? ==> Delimiter(sep.value))
    ensures MatchTimestamp(s, i, head, sep, stop) == Some(c) <==>
      exists a: nat, n: nat :: a <= n <= |s| && TimestampAt(s, i, head, sep, stop, a, n) && c == s[a..n]
  {
    if OccursAt(s, head, i) {
      var j := i + |head|;
      assert MatchTimestamp(s, i, head, sep, stop) == TimestampAfterHead(s, j, sep, stop);
      assert forall a: nat, n: nat :: TimestampAt(s, i, head, sep, stop, a, n) == TimestampBody(s, j, sep, stop, a, n);
      TimestampBodyExact(s, j, sep, stop, c);
    }
  }

  // ---- all four, and the search ----

  /** Each matcher returns exactly the groups its pattern allows. */
  lemma {:induction false} MatchAtExact(p: Pattern, s: string, i: nat, c: string)
    ensures MatchAt(p, s, i) == Some(c) <==> Matches(p, s, i, c)
  {
    if i <= |s| {
      match p
      case LaunchLabel => MatchLaunchExact(s, i, c);
      case DayMonthYear => DayMonthYearExact(s, i, c);
      case GenesisCall => TimestampExact(s, i, GenesisCallText, None, ',', c);
      case GenesisField => TimestampExact(s, i, GenesisFieldText, Some('='), ';', c);
    }
  }

  /** `re.search`: the first position from `i` on where the pattern
      matches at all, and the group it captures there. */
  lemma {:induction false} SearchExact(p: Pattern, s: string, i: nat, k: nat, c: string)
    requires i <= |s|
    ensures Search(p, s, i) == Some((k, c)) <==>
      && i <= k <= |s| && Matches(p, s, k, c)
      && forall j: nat, c' :: i <= j < k ==> !Matches(p, s, j, c')
  {
    var r := Search(p, s, i);
    MatchAtExact(p, s, k, c);
    if r == Some((k, c)) {
      forall j: nat, c' | i <= j < k
        ensures !Matches(p, s, j, c')
      {
        MatchAtExact(p, s, j, c');
      }
    }
    if i <= k <= |s| && Matches(p, s, k, c) && forall j: nat, c' :: i <= j < k ==> !Matches(p, s, j, c') {
      assert MatchAt(p, s, k).Some?;
      var (k', c') := r.value;
      MatchAtExact(p, s, k', c');
      assert k' == k;
    }
  }
}
