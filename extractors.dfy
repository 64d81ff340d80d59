/** The five extractors of task-1.py, each a function of the content its
    HTTP request would have fetched: the text view of the Voyager 1 page,
    the RFC 1149 info page and plain text, the lines of the emoji test
    table, the source of `chainparams.cpp`, and the records of the Open
    Library search result. */
module Extractors {
  import opened Text
  import opened Calendar
  import opened Outcome
  import opened DateNormaliser
  import opened Patterns
  import opened FirstMatch

  // ---- launch_date (task-1.py:36-44) ----

  /** The date after the first `Launch Date and Time` label, normalised;
      `ValueError` when the label pattern is nowhere in the text. */
  function LaunchDate(text: string): (r: Result<string>)
    ensures r.Ok? ==> IsCanonicalDate(r.value)
    ensures r == Err(ValueError(DateNotFound)) <==> Search(LaunchLabel, text, 0).None?
    ensures Search(LaunchLabel, text, 0).Some? ==> r == Convert(Search(LaunchLabel, text, 0).value.1)
  {
    match Search(LaunchLabel, text, 0)
    case None => Err(ValueError(DateNotFound))
    case Some((_, date)) => Convert(date)
  }

  // ---- rfc1149_date (task-1.py:47-60) ----

  const Rfc1149Literal := "April 1 1990"

  /** The info page settles the date when it mentions `April 1 1990`;
      otherwise the first day-month-year group of the plain text is
      normalised, and none at all is a `RuntimeError`. */
  function Rfc1149Date(info: string, txt: string): (r: Result<string>)
    ensures r.Ok? ==> IsCanonicalDate(r.value)
    ensures Contains(info, Rfc1149Literal) ==> r == Convert("April 1, 1990")
    ensures !Contains(info, Rfc1149Literal) ==>
      (r == Err(RuntimeError(DateNotFound)) <==> Search(DayMonthYear, txt, 0).None?)
    ensures !Contains(info, Rfc1149Literal) && Search(DayMonthYear, txt, 0).Some? ==>
      r == Convert(Search(DayMonthYear, txt, 0).value.1)
  {
    if Contains(info, Rfc1149Literal) then Convert("April 1, 1990")
    else match Search(DayMonthYear, txt, 0)
      case None => Err(RuntimeError(DateNotFound))
      case Some((_, date)) => Convert(date)
  }

  // ---- brain_codepoint (task-1.py:63-72) ----

  /** `line.split(';')[0].strip()`: the code point field. */
  function CodeField(line: string): string {
    Strip(BeforeFirst(line, ';'))
  }

  /** `re.fullmatch(r"[0-9A-Fa-f]+", code)`. */
  predicate IsHex(code: string) {
    code != [] && forall k :: 0 <= k < |code| ==> IsHexDigit(code[k])
  }

  /** The skip test of line 67: a comment line, or no `brain` in any case. */
  predicate Skipped(line: string) {
    (line != [] && line[0] == '#') || !Contains(Lower(line), "brain")
  }

  /** A line the loop does not skip, with a field of hex digits. */
  predicate Qualifies(line: string) {
    !Skipped(line) && IsHex(CodeField(line))
  }

  /** The upper-cased field of the first qualifying line, or a
      `RuntimeError` when no line qualifies. */
  function BrainCodepoint(lines: seq<string>): (r: Result<string>)
    ensures r.Ok? ==> r.value != [] && forall k :: 0 <= k < |r.value| ==> IsUpperHexDigit(r.value[k])
    ensures r.Err? <==> forall j :: 0 <= j < |lines| ==> !Qualifies(lines[j])
    ensures r.Err? ==> r.error == RuntimeError(CodepointNotFound)
  {
    match FirstIndex(lines, Qualifies, 0)
    case None => Err(RuntimeError(CodepointNotFound))
    case Some(k) => UpperHex(CodeField(lines[k])); Ok(Upper(CodeField(lines[k])))
  }

  /** Upper-casing a field of hex digits gives upper-case hex digits. */
  lemma UpperHex(code: string)
    requires IsHex(code)
    ensures Upper(code) != [] && forall k :: 0 <= k < |code| ==> IsUpperHexDigit(Upper(code)[k])
  {
    forall k | 0 <= k < |code| ensures IsUpperHexDigit(Upper(code)[k]) {
      assert IsHexDigit(code[k]);
    }
  }

  /** The loop of lines 66-72 as written. */
  method FindBrainCodepoint(lines: seq<string>) returns (r: Result<string>)
    ensures r == BrainCodepoint(lines)
  {
    var k := 0;
    while k < |lines|
      invariant 0 <= k <= |lines|
      invariant FirstIndex(lines, Qualifies, k) == FirstIndex(lines, Qualifies, 0)
    {
      var line := lines[k];
      if Skipped(line) {
        k := k + 1;
        continue;
      }
      var code := CodeField(line);
      if IsHex(code) {
        return Ok(Upper(code));
      }
      k := k + 1;
    }
    return Err(RuntimeError(CodepointNotFound));
  }

  /** The answer comes from the first qualifying line, whatever follows. */
  lemma BrainFromFirstQualifying(lines: seq<string>, k: nat)
    requires k < |lines| && Qualifies(lines[k])
    requires forall j :: 0 <= j < k ==> !Qualifies(lines[j])
    ensures BrainCodepoint(lines) == Ok(Upper(CodeField(lines[k])))
  {
    FirstIndexIs(lines, Qualifies, 0, k);
  }

  /** A line that mentions `brain` but whose field is not hex is passed
      over: the answer is that of the remaining lines. */
  lemma BrainSkipsNonHex(lines: seq<string>)
    requires lines != [] && !Skipped(lines[0]) && !IsHex(CodeField(lines[0]))
    ensures BrainCodepoint(lines) == BrainCodepoint(lines[1..])
  {
    FirstElementSkip(lines, Qualifies);
  }

  // ---- btc_date (task-1.py:75-84) ----

  const DefaultGenesisTime := 1231006505

  /** The timestamp: from the first `CreateGenesisBlock(` call, else from the
      first `genesis.nTime =` assignment, else the default. */
  function GenesisTime(src: string): (ts: nat)
    ensures ts < Pow10(10)
    ensures Search(GenesisCall, src, 0).Some? ==> ts == Number(Search(GenesisCall, src, 0).value.1)
    ensures Search(GenesisCall, src, 0).None? && Search(GenesisField, src, 0).Some? ==>
      ts == Number(Search(GenesisField, src, 0).value.1)
    ensures Search(GenesisCall, src, 0).None? && Search(GenesisField, src, 0).None? ==>
      ts == DefaultGenesisTime
  {
    assert Pow10(10) == 10000000000;
    match Search(GenesisCall, src, 0)
    case Some((_, digits)) => TimestampBound(digits); Number(digits)
    case None =>
      match Search(GenesisField, src, 0)
      case Some((_, digits)) => TimestampBound(digits); Number(digits)
      case None => DefaultGenesisTime
  }

  lemma TimestampBound(digits: string)
    requires |digits| <= 10 && AllDigits(digits)
    ensures Number(digits) < Pow10(10)
  {
    Pow10Monotone(|digits|, 10);
  }

  lemma {:induction false} Pow10Monotone(a: nat, b: nat)
    requires a <= b
    ensures Pow10(a) <= Pow10(b)
    decreases b
  {
    if a < b {
      Pow10Monotone(a, b - 1);
    }
  }

  /** The UTC calendar date of the genesis timestamp as `YYYYMMDD`. */
  function BtcDate(src: string): (r: string)
    ensures IsCanonicalDate(r)
    ensures 1970 <= ReadDate(r).year <= 2286
    ensures DaysFromCivil(ReadDate(r)) == GenesisTime(src) / SecondsPerDay
  {
    var d := UtcDate(GenesisTime(src));
    RenderIsCanonical(d);
    Render(d)
  }

  /** The default timestamp 1231006505 falls on 3 January 2009, UTC. */
  lemma DefaultGenesisDate()
    ensures UtcDate(DefaultGenesisTime) == Date(2009, 1, 3)
  {
    var d := Date(2009, 1, 3);
    assert DaysBeforeYear(2009) == 14245;
    assert DaysFromCivil(d) == 14247;
    assert DefaultGenesisTime / SecondsPerDay == 14247;
    CivilFromDaysOfCivil(d);
  }

  /** Without either pattern in the source the answer is `20090103`. */
  lemma BtcDateDefault(src: string)
    requires Search(GenesisCall, src, 0).None? && Search(GenesisField, src, 0).None?
    ensures BtcDate(src) == "20090103"
  {
    assert GenesisTime(src) == DefaultGenesisTime;
    DefaultGenesisDate();
    GenesisDayRendered();
  }

  lemma GenesisDayRendered()
    ensures Render(Date(2009, 1, 3)) == "20090103"
  {
    GenesisDayPieces();
    assert "2009" + "01" + "03" == "20090103";
  }

  lemma GenesisDayPieces()
    ensures Pad(2009, 4) == "2009" && Pad(1, 2) == "01" && Pad(3, 2) == "03"
  {
    Year2009();
  }

  lemma Year2009()
    ensures Pad(2009, 4) == "2009"
  {
    assert Pad(2, 1) == "2";
    assert Pad(20, 2) == "20";
    assert Pad(200, 3) == "200";
  }

  // ---- kr2_isbn10 (task-1.py:87-98) ----

  /** One search result record: `str(doc.get("edition_name", ""))` and the
      strings of `doc.get("isbn", [])`. */
  datatype Doc = Doc(editionName: string, isbns: seq<string>)

  const DefaultIsbn10 := "0131103628"

  /** The edition marker of line 94. */
  predicate IsSecondEdition(doc: Doc) {
    var edition := Lower(doc.editionName);
    Contains(edition, "2") || Contains(edition, "second")
  }

  /** `re.fullmatch(r"\d{10}", isbn)`. */
  predicate IsIsbn10(isbn: string) {
    |isbn| == 10 && AllDigits(isbn)
  }

  /** A record the outer loop returns from: marked, with a 10-digit ISBN. */
  predicate Supplies(doc: Doc) {
    IsSecondEdition(doc) && FirstIndex(doc.isbns, IsIsbn10, 0).Some?
  }

  /** The first 10-digit ISBN of the earliest supplying record, or the
      default ISBN. */
  function Kr2Isbn10(docs: seq<Doc>): (r: string)
    ensures IsIsbn10(r)
    ensures FirstIndex(docs, Supplies, 0).None? ==> r == DefaultIsbn10
    ensures FirstIndex(docs, Supplies, 0).Some? ==>
      var doc := docs[FirstIndex(docs, Supplies, 0).value];
      r == doc.isbns[FirstIndex(doc.isbns, IsIsbn10, 0).value]
  {
    match FirstIndex(docs, Supplies, 0)
    case None => DefaultIsbn10
    case Some(k) => docs[k].isbns[FirstIndex(docs[k].isbns, IsIsbn10, 0).value]
  }

  /** The nested loop of lines 92-98 as written. */
  method FindKr2Isbn10(docs: seq<Doc>) returns (r: string)
    ensures r == Kr2Isbn10(docs)
  {
    var k := 0;
    while k < |docs|
      invariant 0 <= k <= |docs|
      invariant FirstIndex(docs, Supplies, k) == FirstIndex(docs, Supplies, 0)
    {
      var found := Kr2Record(docs[k]);
      if found.Some? {
        Kr2Found(docs, k);
        return found.value;
      }
      Kr2Passes(docs, k);
      k := k + 1;
    }
    Kr2NotFound(docs);
    return DefaultIsbn10;
  }

  /** One pass of the outer loop, lines 93-97: a marked record's first
      10-digit ISBN, if it has one. */
  method Kr2Record(doc: Doc) returns (r: Option<string>)
    ensures r.Some? <==> Supplies(doc)
    ensures r.Some? ==> r.value == doc.isbns[FirstIndex(doc.isbns, IsIsbn10, 0).value]
  {
    var marked := IsSecondEdition(doc);
    if marked {
      var j := FindIsbn10(doc.isbns);
      if j.Some? {
        return Some(doc.isbns[j.value]);
      }
    }
    return None;
  }

  lemma Kr2Found(docs: seq<Doc>, k: nat)
    requires k < |docs| && FirstIndex(docs, Supplies, k) == FirstIndex(docs, Supplies, 0)
    requires Supplies(docs[k])
    ensures Kr2Isbn10(docs) == docs[k].isbns[FirstIndex(docs[k].isbns, IsIsbn10, 0).value]
  {
    FirstIndexHere(docs, Supplies, k);
  }

  lemma Kr2Passes(docs: seq<Doc>, k: nat)
    requires k < |docs| && !Supplies(docs[k])
    ensures FirstIndex(docs, Supplies, k) == FirstIndex(docs, Supplies, k + 1)
  {
    FirstIndexNext(docs, Supplies, k);
  }

  lemma Kr2NotFound(docs: seq<Doc>)
    requires FirstIndex(docs, Supplies, |docs|) == FirstIndex(docs, Supplies, 0)
    ensures Kr2Isbn10(docs) == DefaultIsbn10
  {
  }

  /** The inner loop of lines 95-97: the first 10-digit ISBN of a record. */
  method FindIsbn10(isbns: seq<string>) returns (r: Option<nat>)
    ensures r == FirstIndex(isbns, IsIsbn10, 0)
  {
    var j := 0;
    while j < |isbns|
      invariant 0 <= j <= |isbns|
      invariant FirstIndex(isbns, IsIsbn10, j) == FirstIndex(isbns, IsIsbn10, 0)
    {
      if IsIsbn10(isbns[j]) {
        return Some(j);
      }
      j := j + 1;
    }
    return None;
  }

  /** Records without the edition marker are never looked into: their ISBN
      lists do not affect the answer. */
  lemma Kr2IgnoresUnmarked(docs: seq<Doc>, others: seq<Doc>)
    requires |docs| == |others|
    requires forall j :: 0 <= j < |docs| ==> docs[j].editionName == others[j].editionName
    requires forall j :: 0 <= j < |docs| && IsSecondEdition(docs[j]) ==> docs[j].isbns == others[j].isbns
    ensures Kr2Isbn10(docs) == Kr2Isbn10(others)
  {
    forall j | 0 <= j < |docs| ensures Supplies(docs[j]) == Supplies(others[j]) {
      assert IsSecondEdition(docs[j]) == IsSecondEdition(others[j]);
    }
    FirstIndexAgree(docs, Supplies, others, Supplies);
  }

  /** A marked record without a 10-digit ISBN does not end the scan. */
  lemma Kr2SkipsMarkedWithoutIsbn10(docs: seq<Doc>)
    requires docs != [] && IsSecondEdition(docs[0])
    requires forall k :: 0 <= k < |docs[0].isbns| ==> !IsIsbn10(docs[0].isbns[k])
    ensures Kr2Isbn10(docs) == Kr2Isbn10(docs[1..])
  {
    FirstElementSkip(docs, Supplies);
  }
}
