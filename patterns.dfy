/** The four regular expressions the extractors search with, each written
    as a hand-made matcher at one start position, and `re.search` as the
    leftmost start position where the matcher succeeds.

    Each matcher takes every greedy repetition as far as it goes and never
    gives anything back. For these four patterns that is what the
    backtracking engine ends up with too: after each repetition the pattern
    asks for a character the repetition itself would not have consumed (a
    letter run must be followed by `.` or a blank, a digit run by `,`, a
    blank, `;` or a non-word character), so giving characters back never
    turns a failure into a match. */
module Patterns {
  import opened Text
  import opened Outcome
  import opened FirstMatch

  datatype Pattern =
    | LaunchLabel    // Launch Date and Time\s*[:,]?\s*([A-Za-z]+\.?\s+\d{1,2},?\s+\d{4}), ignoring case
    | DayMonthYear   // \b(\d{1,2}\s+[A-Za-z]+\s+\d{4})\b
    | GenesisCall    // CreateGenesisBlock\(\s*(\d{9,10})\s*,
    | GenesisField   // genesis\.nTime\s*=\s*(\d{9,10})\s*;

  const LaunchLabelText := "launch date and time"
  const GenesisCallText := "CreateGenesisBlock("
  const GenesisFieldText := "genesis.nTime"

  /** `sub` stands at `i`, compared letter by letter ignoring ASCII case;
      `sub` is given in lower case. */
  predicate OccursAtIgnoringCase(s: string, sub: string, i: nat) {
    i + |sub| <= |s| && Lower(s[i..i + |sub|]) == sub
  }

  /** The end of at most `max` digits from `i`: a greedy `\d{1,max}` without
      the lower bound. */
  function TakeDigits(s: string, i: nat, max: nat): (j: nat)
    requires i <= |s|
    ensures i <= j <= |s| && j <= i + max
    ensures forall k :: i <= k < j ==> IsDigit(s[k])
    ensures j == i + max || j == |s| || !IsDigit(s[j])
    decreases max
  {
    if max > 0 && i < |s| && IsDigit(s[i]) then TakeDigits(s, i + 1, max - 1) else i
  }

  /** The end of `\s+` at `i`, when there is at least one blank. */
  function Blanks(s: string, i: nat): (r: Option<nat>)
    requires i <= |s|
    ensures r.Some? ==> i < r.value <= |s|
  {
    var j := Skip(s, i, Space);
    if j == i then None else Some(j)
  }

  /** `\d{4}` at `i`. */
  predicate FourDigitsAt(s: string, i: nat) {
    i + 4 <= |s| && AllDigits(s[i..i + 4])
  }

  /** `\b` before a word character at `i`: nothing or a non-word character
      precedes it. */
  predicate WordStartAt(s: string, i: nat) {
    i == 0 || (i <= |s| && !IsWordChar(s[i - 1]))
  }

  /** `\b` after a word character ending at `e`. */
  predicate WordEndAt(s: string, e: nat) {
    e == |s| || (e < |s| && !IsWordChar(s[e]))
  }

  /** `x?` at `i`: past `x` when it stands there. */
  function Optional(s: string, i: nat, x: char): (j: nat)
    requires i <= |s|
    ensures i <= j <= |s| && (j == i + 1 <==> i < |s| && s[i] == x)
  {
    if i < |s| && s[i] == x then i + 1 else i
  }

  /** `\s+\d{4}` at `c`: where it ends. */
  function YearEnd(s: string, c: nat): (r: Option<nat>)
    requires c <= |s|
    ensures r.Some? ==> c + 5 <= r.value <= |s| && FourDigitsAt(s, r.value - 4)
  {
    match Blanks(s, c)
    case None => None
    case Some(y) => if FourDigitsAt(s, y) then Some(y + 4) else None
  }

  /** `\s+\d{1,2},?\s+\d{4}`, the launch date after its month, at `d`:
      where it ends. */
  function DayYearEnd(s: string, d: nat): (r: Option<nat>)
    requires d <= |s|
    ensures r.Some? ==> d + 7 <= r.value <= |s| && FourDigitsAt(s, r.value - 4)
  {
    match Blanks(s, d)
    case None => None
    case Some(w) =>
      var n := TakeDigits(s, w, 2);
      if n == w then None else YearEnd(s, Optional(s, n, ','))
  }

  /** The date group of the launch pattern,
      `[A-Za-z]+\.?\s+\d{1,2},?\s+\d{4}`, at `g`: where it ends. */
  function LaunchDateEnd(s: string, g: nat): (r: Option<nat>)
    requires g <= |s|
    ensures r.Some? ==> g + 8 <= r.value <= |s| && IsLetter(s[g]) && FourDigitsAt(s, r.value - 4)
  {
    var l := Skip(s, g, Letter);
    if l == g then None else DayYearEnd(s, Optional(s, l, '.'))
  }

  /** The whole launch pattern at `i`; the capture is the date group. */
  function MatchLaunch(s: string, i: nat): (r: Option<string>)
    requires i <= |s|
    ensures r.Some? ==> |r.value| >= 8 && IsLetter(r.value[0]) && AllDigits(r.value[|r.value| - 4..])
  {
    if !OccursAtIgnoringCase(s, LaunchLabelText, i) then None
    else LaunchAfterLabel(s, i + |LaunchLabelText|)
  }

  /** `\s*[:,]?\s*` from `h`: where the gap after the label ends. */
  function LabelGapEnd(s: string, h: nat): (g: nat)
    requires h <= |s|
    ensures h <= g <= |s|
  {
    var a := Skip(s, h, Space);
    var b := if a < |s| && (s[a] == ':' || s[a] == ',') then a + 1 else a;
    Skip(s, b, Space)
  }

  /** The launch pattern after its label, from `h`: the gap and then the
      date group. */
  function LaunchAfterLabel(s: string, h: nat): (r: Option<string>)
    requires h <= |s|
    ensures r.Some? ==> |r.value| >= 8 && IsLetter(r.value[0]) && AllDigits(r.value[|r.value| - 4..])
  {
    var g := LabelGapEnd(s, h);
    match LaunchDateEnd(s, g)
    case None => None
    case Some(e) => CaptureEndsInYear(s, g, e); Some(s[g..e])
  }

  /** A capture that ends with `\d{4}` ends with four digits. */
  lemma CaptureEndsInYear(s: string, g: nat, e: nat)
    requires g + 4 <= e <= |s| && FourDigitsAt(s, e - 4)
    ensures var c := s[g..e]; |c| == e - g && c[0] == s[g] && AllDigits(c[|c| - 4..])
  {
    assert s[g..e][e - g - 4..] == s[e - 4..e];
  }

  /** `[A-Za-z]+\s+\d{4}\b`, the day-month-year pattern after its day and
      blanks, at `m`: where it ends. */
  function MonthYearEnd(s: string, m: nat): (r: Option<nat>)
    requires m <= |s|
    ensures r.Some? ==> m + 6 <= r.value <= |s| && FourDigitsAt(s, r.value - 4) && WordEndAt(s, r.value)
  {
    var l := Skip(s, m, Letter);
    if l == m then None
    else match YearEnd(s, l)
      case None => None
      case Some(e) => if WordEndAt(s, e) then Some(e) else None
  }

  /** `\b(\d{1,2}\s+[A-Za-z]+\s+\d{4})\b` at `i`. */
  function MatchDayMonthYear(s: string, i: nat): (r: Option<string>)
    requires i <= |s|
    ensures r.Some? ==> |r.value| >= 8 && IsDigit(r.value[0]) && AllDigits(r.value[|r.value| - 4..])
  {
    var n := TakeDigits(s, i, 2);
    if n == i || !WordStartAt(s, i) then None
    else match Blanks(s, n)
      case None => None
      case Some(m) =>
        match MonthYearEnd(s, m)
        case None => None
        case Some(e) => CaptureEndsInYear(s, i, e); Some(s[i..e])
  }

  /** Between a timestamp's head and its digits, from `j`: `\s*`, or
      `\s*<sep>\s*` with a separator; where it ends. */
  function SepGapEnd(s: string, j: nat, sep: Option<char>): (r: Option<nat>)
    requires j <= |s|
    ensures r.Some? ==> j <= r.value <= |s|
  {
    var h := Skip(s, j, Space);
    match sep
    case None => Some(h)
    case Some(x) => if h < |s| && s[h] == x then Some(Skip(s, h + 1, Space)) else None
  }

  /** `\s*<stop>` at `n`. */
  predicate StopsAt(s: string, n: nat, stop: char)
    requires n <= |s|
  {
    var z := Skip(s, n, Space);
    z < |s| && s[z] == stop
  }

  /** `<head>\s*(\d{9,10})\s*<stop>` at `i`, the head compared exactly;
      with a `sep`, `<head>\s*<sep>\s*(\d{9,10})\s*<stop>`. */
  function MatchTimestamp(s: string, i: nat, head: string, sep: Option<char>, stop: char): (r: Option<string>)
    requires i <= |s|
    ensures r.Some? ==> 9 <= |r.value| <= 10 && AllDigits(r.value)
  {
    if !OccursAt(s, head, i) then None
    else TimestampAfterHead(s, i + |head|, sep, stop)
  }

  /** A timestamp pattern after its head, from `j`: the gap, the digits and
      the stop character. */
  function TimestampAfterHead(s: string, j: nat, sep: Option<char>, stop: char): (r: Option<string>)
    requires j <= |s|
    ensures r.Some? ==> 9 <= |r.value| <= 10 && AllDigits(r.value)
  {
    match SepGapEnd(s, j, sep)
    case None => None
    case Some(a) =>
      var n := TakeDigits(s, a, 10);
      if n - a >= 9 && StopsAt(s, n, stop) then DigitRun(s, a, n); Some(s[a..n]) else None
  }

  lemma DigitRun(s: string, a: nat, n: nat)
    requires a <= n <= |s|
    requires forall k :: a <= k < n ==> IsDigit(s[k])
    ensures AllDigits(s[a..n])
  {
  }

  /** `p` matched at `i`, with the text of its one group; nothing past
      the end of `s`. */
  function MatchAt(p: Pattern, s: string, i: nat): (r: Option<string>)
  {
    if i > |s| then None
    else match p
      case LaunchLabel => MatchLaunch(s, i)
      case DayMonthYear => MatchDayMonthYear(s, i)
      case GenesisCall => MatchTimestamp(s, i, GenesisCallText, None, ',')
      case GenesisField => MatchTimestamp(s, i, GenesisFieldText, Some('='), ';')
  }

  /** `re.search(p, s[i..])` with positions counted in all of `s`: the
      leftmost start from `i` on where `p` matches, and its group. */
  function Search(p: Pattern, s: string, i: nat): (r: Option<(nat, string)>)
    requires i <= |s|
    ensures r.Some? ==> i <= r.value.0 <= |s| && MatchAt(p, s, r.value.0) == Some(r.value.1)
    ensures r.Some? ==> forall k :: i <= k < r.value.0 ==> MatchAt(p, s, k).None?
    ensures r.None? <==> forall k :: i <= k <= |s| ==> MatchAt(p, s, k).None?
  {
    var m := k => MatchAt(p, s, k);
    assert forall k :: m(k) == MatchAt(p, s, k);
    FirstHit(m, i, |s|)
  }
}
