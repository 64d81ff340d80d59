/** The date extractors on texts like the ones the unit tests of task-1.py
    expect them to meet. Each text starts with the line that matters and
    may go on with anything; the search result is derived from the text,
    not assumed. */
module ExtractorExamples {
  import opened Text
  import opened Outcome
  import opened DateNormaliser
  import opened Patterns
  import opened PatternShapes
  import opened MatchContext
  import opened Extractors
  import opened DateExamples

  lemma LowerByLetters(s: string, t: string)
    requires |s| == |t| && forall m :: 0 <= m < |s| ==> LowerChar(s[m]) == t[m]
    ensures Lower(s) == t
  {
  }

  /** The launch label as a page writes it, in any case. */
  lemma LaunchLabelLowered()
    ensures Lower("Launch Date and Time") == LaunchLabelText
  {
    assert forall m :: 0 <= m < 20 ==> LowerChar("Launch Date and Time"[m]) == "launch date and time"[m];
    LowerByLetters("Launch Date and Time", "launch date and time");
  }

  /** A line that starts with the label, in any case. */
  lemma LabelOpens(s: string)
    requires |s| >= 20 && s[0..20] == "Launch Date and Time"
    ensures OccursAtIgnoringCase(s, LaunchLabelText, 0)
  {
    LaunchLabelLowered();
  }

  /** The date group `s[g..e]` after a one-blank gap from the label's end
      makes a launch match at the start. */
  lemma LaunchAtStart(s: string, e: nat)
    requires |s| >= 20 && s[0..20] == "Launch Date and Time"
    requires 21 <= e <= |s| && IsSpace(s[20]) && LaunchGroupAt(s, 21, e)
    ensures Matches(LaunchLabel, s, 0, s[21..e])
  {
    LabelOpens(s);
    assert LabelGap(s, 20, 20, 20, 21);
    assert LaunchMatchAt(s, 0, 21, e);
  }

  // ---- the Voyager launch ----

  /** The label on its own line, the date on the next. */
  const VoyagerLaunch := "Launch Date and Time\nSeptember 5, 1977"

  lemma VoyagerGroup()
    ensures LaunchGroupAt(VoyagerLaunch, 21, 38)
  {
    var s := VoyagerLaunch;
    assert MonthSplit(s, 21, 30, 30);
    assert DaySplit(s, 30, 31, 32, 33);
    assert YearSplit(s, 33, 34, 38);
    assert YearAt(s, 33, 38);
    assert DayYearAt(s, 30, 38);
  }

  lemma VoyagerPieces()
    ensures |VoyagerLaunch| == 38 && IsSpace(VoyagerLaunch[20])
    ensures VoyagerLaunch[0..20] == "Launch Date and Time"
    ensures VoyagerLaunch[21..38] == "September 5, 1977"
  {
  }

  lemma VoyagerLaunchMatches()
    ensures Matches(LaunchLabel, VoyagerLaunch, 0, "September 5, 1977")
  {
    VoyagerGroup();
    VoyagerPieces();
    LaunchAtStart(VoyagerLaunch, 38);
  }

  /** A Voyager page that starts with the launch label and the date gives
      the date the unit test expects, whatever follows. */
  lemma LaunchOnVoyagerPage(rest: string)
    ensures LaunchDate(VoyagerLaunch + rest) == Ok("19770905")
  {
    VoyagerLaunchMatches();
    MatchesExtends(LaunchLabel, VoyagerLaunch, rest, 0, "September 5, 1977");
    SearchFromStart(LaunchLabel, VoyagerLaunch + rest, "September 5, 1977");
    VoyagerLong();
  }

  /** The same date without its comma, on the label's line. */
  const CommalessLaunch := "Launch Date and Time September 5 1977"

  lemma CommalessGroup()
    ensures LaunchGroupAt(CommalessLaunch, 21, 37)
  {
    var s := CommalessLaunch;
    assert MonthSplit(s, 21, 30, 30);
    assert DaySplit(s, 30, 31, 32, 32);
    assert YearSplit(s, 32, 33, 37);
    assert YearAt(s, 32, 37);
    assert DayYearAt(s, 30, 37);
  }

  lemma CommalessPieces()
    ensures |CommalessLaunch| == 37 && IsSpace(CommalessLaunch[20])
    ensures CommalessLaunch[0..20] == "Launch Date and Time"
    ensures CommalessLaunch[21..37] == "September 5 1977"
  {
  }

  lemma CommalessLaunchMatches()
    ensures Matches(LaunchLabel, CommalessLaunch, 0, "September 5 1977")
  {
    CommalessGroup();
    CommalessPieces();
    LaunchAtStart(CommalessLaunch, 37);
  }

  /** The launch pattern lets the comma go, the templates do not: a page
      that writes `September 5 1977` makes `launch_date` raise. */
  lemma LaunchWithoutComma(rest: string)
    ensures LaunchDate(CommalessLaunch + rest) == Err(ValueError(Unparsed("September 5 1977")))
  {
    CommalessLaunchMatches();
    MatchesExtends(LaunchLabel, CommalessLaunch, rest, 0, "September 5 1977");
    SearchFromStart(LaunchLabel, CommalessLaunch + rest, "September 5 1977");
    VoyagerCommaless();
  }

  // ---- RFC 1149 ----

  /** The info page's mention of the date settles it, whatever the plain
      text says. */
  lemma Rfc1149FromInfoPage(info: string, txt: string)
    requires Contains(info, Rfc1149Literal)
    ensures Rfc1149Date(info, txt) == Ok("19900401")
  {
    Rfc1149Long();
  }

  /** The date line of the RFC's own header. */
  const Rfc1149Line := "1 April 1990"

  lemma Rfc1149LineMatches()
    ensures Matches(DayMonthYear, Rfc1149Line, 0, Rfc1149Line)
  {
    var s := Rfc1149Line;
    assert Boundary(s, 0) && Boundary(s, 12);
    assert DayBlanks(s, 0, 1, 2);
    assert RunOf(s, 2, 7, Letter);
    assert YearSplit(s, 7, 8, 12);
    assert YearAt(s, 7, 12);
    assert MonthYearAt(s, 2, 12);
    assert DayMonthYearAt(s, 0, 12);
    assert s[0..12] == s;
  }

  /** Without the mention, a plain text that starts with the RFC's
      `1 April 1990` gives the same answer, whatever follows the year
      outside a word. */
  lemma Rfc1149FromPlainText(info: string, rest: string)
    requires !Contains(info, Rfc1149Literal)
    requires StartsOffWord(rest)
    ensures Rfc1149Date(info, Rfc1149Line + rest) == Ok("19900401")
  {
    Rfc1149LineMatches();
    MatchesExtends(DayMonthYear, Rfc1149Line, rest, 0, Rfc1149Line);
    SearchFromStart(DayMonthYear, Rfc1149Line + rest, Rfc1149Line);
    Rfc1149DayFirst();
  }

  // ---- the bitcoin genesis block ----

  /** The call that builds the main network's genesis block. */
  const GenesisCallLine := "CreateGenesisBlock(1231006505,"

  /** A later assignment of another network's genesis time. */
  const GenesisFieldLine := "genesis.nTime = 1296688602;"

  lemma GenesisCallMatches()
    ensures Matches(GenesisCall, GenesisCallLine, 0, "1231006505")
  {
    var s := GenesisCallLine;
    assert s[0..19] == GenesisCallText;
    assert RunOf(s, 19, 29, Digit);
    assert RunOf(s, 29, 29, Space) && s[29] == ',';
    assert StopFollows(s, 29, ',');
    assert TimestampBody(s, 19, None, ',', 19, 29);
    assert TimestampAt(s, 0, GenesisCallText, None, ',', 19, 29);
    assert s[19..29] == "1231006505";
  }

  lemma GenesisFieldPieces()
    ensures |GenesisFieldLine| == 27
    ensures GenesisFieldLine[0..13] == GenesisFieldText
    ensures GenesisFieldLine[16..26] == "1296688602"
  {
  }

  lemma GenesisFieldBody()
    ensures TimestampBody(GenesisFieldLine, 13, Some('='), ';', 16, 26)
  {
    var s := GenesisFieldLine;
    assert SepGap(s, 13, 14, '=', 16);
    assert HeadGap(s, 13, Some('='), 16);
    assert RunOf(s, 16, 26, Digit);
    assert RunOf(s, 26, 26, Space) && s[26] == ';';
    assert StopFollows(s, 26, ';');
  }

  lemma GenesisFieldMatches()
    ensures Matches(GenesisField, GenesisFieldLine, 0, "1296688602")
  {
    GenesisFieldPieces();
    GenesisFieldBody();
    assert TimestampAt(GenesisFieldLine, 0, GenesisFieldText, Some('='), ';', 16, 26);
  }

  lemma GenesisDigits()
    ensures Number("1231006505") == DefaultGenesisTime
  {
    assert Number("1") == 1;
    assert "12"[..1] == "1";
    assert Number("12") == 12;
    assert "123"[..2] == "12";
    assert Number("123") == 123;
    assert "1231"[..3] == "123";
    assert Number("1231") == 1231;
    assert "12310"[..4] == "1231";
    assert Number("12310") == 12310;
    assert "123100"[..5] == "12310";
    assert Number("123100") == 123100;
    assert "1231006"[..6] == "123100";
    assert Number("1231006") == 1231006;
    assert "12310065"[..7] == "1231006";
    assert Number("12310065") == 12310065;
    assert "123100650"[..8] == "12310065";
    assert Number("123100650") == 123100650;
    assert "1231006505"[..9] == "123100650";
  }

  /** A source with both the genesis call and a later `genesis.nTime`
      assignment: the call wins, and its time is the third of January
      2009. */
  lemma GenesisCallFirst(mid: string, rest: string)
    ensures Search(GenesisField, GenesisCallLine + mid + GenesisFieldLine + rest, 0).Some?
    ensures Search(GenesisCall, GenesisCallLine + mid + GenesisFieldLine + rest, 0) == Some((0, "1231006505"))
    ensures GenesisTime(GenesisCallLine + mid + GenesisFieldLine + rest) == DefaultGenesisTime
    ensures BtcDate(GenesisCallLine + mid + GenesisFieldLine + rest) == "20090103"
  {
    GenesisFieldFound(GenesisCallLine + mid, rest);
    GenesisCallFound(mid + GenesisFieldLine + rest);
    Regroup(GenesisCallLine, mid, GenesisFieldLine, rest);
    GenesisDigits();
    DefaultGenesisDate();
    GenesisDayRendered();
  }

  lemma Regroup(a: string, b: string, c: string, d: string)
    ensures a + (b + c + d) == a + b + c + d
  {
  }

  lemma GenesisCallFound(rest: string)
    ensures Search(GenesisCall, GenesisCallLine + rest, 0) == Some((0, "1231006505"))
  {
    GenesisCallMatches();
    MatchesExtends(GenesisCall, GenesisCallLine, rest, 0, "1231006505");
    SearchFromStart(GenesisCall, GenesisCallLine + rest, "1231006505");
  }

  lemma GenesisFieldFound(pre: string, rest: string)
    ensures Search(GenesisField, pre + GenesisFieldLine + rest, 0).Some?
  {
    GenesisFieldMatches();
    MatchesExtends(GenesisField, GenesisFieldLine, rest, 0, "1296688602");
    MatchesShifts(GenesisField, pre, GenesisFieldLine + rest, 0, "1296688602");
    assert pre + (GenesisFieldLine + rest) == pre + GenesisFieldLine + rest;
    SearchFinds(GenesisField, pre + GenesisFieldLine + rest, 0, |pre|, "1296688602");
  }
}
