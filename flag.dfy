/** `assemble_flag` (task-1.py:133-143) without the hash: the five
    extractors run left to right on what their fetches delivered, and their
    answers are joined into `FLAG{a-b-c-d-e}`. */
module Flag {
  import opened Text
  import opened Outcome
  import opened Calendar
  import opened Extractors

  /** What the six fetches deliver: the Voyager page's text view, the RFC
      info page and the RFC text, the emoji test file's lines, the Bitcoin
      source and the Open Library search records. */
  datatype Fetched = Fetched(
    voyagerText: string,
    rfcInfo: string,
    rfcTxt: string,
    emojiLines: seq<string>,
    bitcoinSource: string,
    openLibraryDocs: seq<Doc>)

  predicate NoDash(s: string) {
    forall k :: 0 <= k < |s| ==> s[k] != '-'
  }

  /** The parts written one after another with a `-` between neighbours. */
  function Join(parts: seq<string>): (r: string)
    ensures |parts| == 1 ==> r == parts[0]
    ensures |parts| > 1 ==> r == parts[0] + "-" + Join(parts[1..])
  {
    if parts == [] then []
    else if |parts| == 1 then parts[0]
    else parts[0] + "-" + Join(parts[1..])
  }

  /** `s.split("-")`: the pieces between the dashes, an empty piece where
      two dashes meet or at an end that is a dash. */
  function Split(s: string): (r: seq<string>)
    ensures r != []
    ensures forall i :: 0 <= i < |r| ==> NoDash(r[i])
  {
    if s == [] then [[]]
    else
      var rest := Split(s[1..]);
      if s[0] == '-' then [[]] + rest
      else [[s[0]] + rest[0]] + rest[1..]
  }

  /** Splitting text without a dash gives the text back as the one piece. */
  lemma {:induction false} SplitNoDash(s: string)
    requires NoDash(s)
    ensures Split(s) == [s]
    decreases |s|
  {
    if s != [] {
      SplitNoDash(s[1..]);
      assert [s[0]] + s[1..] == s;
    }
  }

  /** Splitting `a + "-" + b` where `a` has no dash: `a`, then the pieces
      of `b`. */
  lemma {:induction false} SplitAfterPiece(a: string, b: string)
    requires NoDash(a)
    ensures Split(a + "-" + b) == [a] + Split(b)
    decreases |a|
  {
    if a == [] {
      assert a + "-" + b == ['-'] + b;
      assert (['-'] + b)[1..] == b;
    } else {
      SplitAfterPiece(a[1..], b);
      assert (a + "-" + b)[1..] == a[1..] + "-" + b;
      assert [a[0]] + a[1..] == a;
    }
  }

  /** Joining and splitting again gives back parts that have no dash. */
  lemma {:induction false} SplitJoin(parts: seq<string>)
    requires parts != []
    requires forall i :: 0 <= i < |parts| ==> NoDash(parts[i])
    ensures Split(Join(parts)) == parts
    decreases |parts|
  {
    if |parts| == 1 {
      SplitNoDash(parts[0]);
    } else {
      SplitJoin(parts[1..]);
      SplitAfterPiece(parts[0], Join(parts[1..]));
    }
  }

  /** Splitting and joining again gives back any text. */
  lemma {:induction false} JoinSplit(s: string)
    ensures Join(Split(s)) == s
    decreases |s|
  {
    if s != [] {
      JoinSplit(s[1..]);
      var rest := Split(s[1..]);
      if s[0] != '-' {
        if |rest| > 1 {
          assert Join(rest) == rest[0] + "-" + Join(rest[1..]);
        }
      }
    }
  }

  /** The flag token of line 141. */
  function Token(parts: seq<string>): (r: string)
    requires |parts| == 5
  {
    "FLAG{" + Join(parts) + "}"
  }

  /** The text between the braces of a token. */
  function Braced(token: string): string
    requires |token| >= 6
  {
    token[5..|token| - 1]
  }

  /** The token spelled out part by part, in the order of the list. */
  lemma TokenLayout(parts: seq<string>)
    requires |parts| == 5
    ensures Token(parts)
         == "FLAG{" + parts[0] + "-" + parts[1] + "-" + parts[2] + "-" + parts[3] + "-" + parts[4] + "}"
  {
    assert parts[1..][1..] == parts[2..];
    assert parts[2..][1..] == parts[3..];
    assert parts[3..][1..] == parts[4..];
    assert Join(parts[4..]) == parts[4];
  }

  /** Between the braces a token splits on `-` back into its parts when no
      part has a dash. */
  lemma TokenSplits(parts: seq<string>)
    requires |parts| == 5
    requires forall i :: 0 <= i < 5 ==> NoDash(parts[i])
    ensures |Token(parts)| >= 6 && Token(parts)[..5] == "FLAG{" && Token(parts)[|Token(parts)| - 1] == '}'
    ensures Split(Braced(Token(parts))) == parts
  {
    var token := Token(parts);
    assert token[5..|token| - 1] == Join(parts);
    SplitJoin(parts);
  }

  /** `assemble_flag` up to the hash: the first extractor that raises aborts
      the rest and no token is made; otherwise the token of the five answers
      in order. `btc_date` and `kr2_isbn10` always answer. */
  function AssembleFlag(f: Fetched): (r: Result<string>)
    ensures r.Ok? <==>
      LaunchDate(f.voyagerText).Ok? && Rfc1149Date(f.rfcInfo, f.rfcTxt).Ok? && BrainCodepoint(f.emojiLines).Ok?
    ensures LaunchDate(f.voyagerText).Err? ==> r == Err(LaunchDate(f.voyagerText).error)
    ensures LaunchDate(f.voyagerText).Ok? && Rfc1149Date(f.rfcInfo, f.rfcTxt).Err? ==>
      r == Err(Rfc1149Date(f.rfcInfo, f.rfcTxt).error)
    ensures LaunchDate(f.voyagerText).Ok? && Rfc1149Date(f.rfcInfo, f.rfcTxt).Ok? && BrainCodepoint(f.emojiLines).Err? ==>
      r == Err(BrainCodepoint(f.emojiLines).error)
  {
    match LaunchDate(f.voyagerText)
    case Err(e) => Err(e)
    case Ok(launch) =>
      match Rfc1149Date(f.rfcInfo, f.rfcTxt)
      case Err(e) => Err(e)
      case Ok(rfc) =>
        match BrainCodepoint(f.emojiLines)
        case Err(e) => Err(e)
        case Ok(brain) =>
          Ok(Token([launch, rfc, brain, BtcDate(f.bitcoinSource), Kr2Isbn10(f.openLibraryDocs)]))
  }

  /** The five answers, when all of them are there. */
  function Parts(f: Fetched): seq<string>
    requires LaunchDate(f.voyagerText).Ok? && Rfc1149Date(f.rfcInfo, f.rfcTxt).Ok? && BrainCodepoint(f.emojiLines).Ok?
  {
    [LaunchDate(f.voyagerText).value, Rfc1149Date(f.rfcInfo, f.rfcTxt).value,
     BrainCodepoint(f.emojiLines).value, BtcDate(f.bitcoinSource), Kr2Isbn10(f.openLibraryDocs)]
  }

  lemma CanonicalNoDash(s: string)
    requires IsCanonicalDate(s)
    ensures NoDash(s)
  {
  }

  /** A token that is made is the token of the five answers. */
  lemma AssembledToken(f: Fetched)
    requires AssembleFlag(f).Ok?
    ensures AssembleFlag(f).value == Token(Parts(f))
  {
  }

  /** No answer has a dash: three dates, the code point in upper-case hex
      and the ISBN. */
  lemma PartsHaveNoDash(f: Fetched)
    requires LaunchDate(f.voyagerText).Ok? && Rfc1149Date(f.rfcInfo, f.rfcTxt).Ok? && BrainCodepoint(f.emojiLines).Ok?
    ensures forall i :: 0 <= i < 5 ==> NoDash(Parts(f)[i])
  {
    var launch := LaunchDate(f.voyagerText).value;
    var rfc := Rfc1149Date(f.rfcInfo, f.rfcTxt).value;
    var brain := BrainCodepoint(f.emojiLines).value;
    var btc := BtcDate(f.bitcoinSource);
    var isbn := Kr2Isbn10(f.openLibraryDocs);
    CanonicalNoDash(launch);
    CanonicalNoDash(rfc);
    CanonicalNoDash(btc);
    HexNoDash(brain);
    IsbnNoDash(isbn);
    assert Parts(f) == [launch, rfc, brain, btc, isbn];
    NoDashFive(launch, rfc, brain, btc, isbn);
  }

  lemma NoDashFive(a: string, b: string, c: string, d: string, e: string)
    requires NoDash(a) && NoDash(b) && NoDash(c) && NoDash(d) && NoDash(e)
    ensures forall i :: 0 <= i < 5 ==> NoDash([a, b, c, d, e][i])
  {
  }

  lemma HexNoDash(s: string)
    requires forall k :: 0 <= k < |s| ==> IsUpperHexDigit(s[k])
    ensures NoDash(s)
  {
  }

  lemma IsbnNoDash(s: string)
    requires IsIsbn10(s)
    ensures NoDash(s)
  {
  }

  /** A token that is made reads back, between its braces, as the five
      answers in extractor order. */
  lemma AssembledTokenSplits(f: Fetched)
    requires AssembleFlag(f).Ok?
    ensures |AssembleFlag(f).value| >= 6
    ensures Split(Braced(AssembleFlag(f).value)) == Parts(f)
  {
    AssembledToken(f);
    PartsHaveNoDash(f);
    TokenSplits(Parts(f));
  }

  /** When `launch_date` raises, nothing else that was fetched matters:
      the later extractors do not run. */
  lemma LaunchFailureStops(f: Fetched, g: Fetched)
    requires LaunchDate(f.voyagerText).Err? && g.voyagerText == f.voyagerText
    ensures AssembleFlag(g) == AssembleFlag(f) == Err(LaunchDate(f.voyagerText).error)
  {
  }

  /** When `rfc1149_date` raises, the code point, the Bitcoin source and the
      records do not matter. */
  lemma RfcFailureStops(f: Fetched, g: Fetched)
    requires Rfc1149Date(f.rfcInfo, f.rfcTxt).Err?
    requires g.voyagerText == f.voyagerText && g.rfcInfo == f.rfcInfo && g.rfcTxt == f.rfcTxt
    ensures AssembleFlag(g) == AssembleFlag(f)
  {
  }

  /** The token of the parts the unit tests expect. */
  lemma ReferenceToken()
    ensures Token(["19770905", "19900401", "1F9E0", "20090103", "0131103628"])
         == "FLAG{19770905-19900401-1F9E0-20090103-0131103628}"
  {
    ReferenceGlued();
    TokenOfFive("19770905", "19900401", "1F9E0", "20090103", "0131103628",
                "FLAG{19770905-19900401-1F9E0-20090103-0131103628}");
  }

  lemma TokenOfFive(a: string, b: string, c: string, d: string, e: string, t: string)
    requires "FLAG{" + a + "-" + b + "-" + c + "-" + d + "-" + e + "}" == t
    ensures Token([a, b, c, d, e]) == t
  {
    TokenLayout([a, b, c, d, e]);
  }

  // the literal is glued together one piece at a time
  lemma ReferenceGlued()
    ensures "FLAG{" + "19770905" + "-" + "19900401" + "-" + "1F9E0" + "-" + "20090103" + "-" + "0131103628" + "}"
         == "FLAG{19770905-19900401-1F9E0-20090103-0131103628}"
  {
    assert "FLAG{" + "19770905" == "FLAG{19770905";
    assert "FLAG{19770905" + "-" == "FLAG{19770905-";
    assert "FLAG{19770905-" + "19900401" == "FLAG{19770905-19900401";
    assert "FLAG{19770905-19900401" + "-" == "FLAG{19770905-19900401-";
    assert "FLAG{19770905-19900401-" + "1F9E0" == "FLAG{19770905-19900401-1F9E0";
    assert "FLAG{19770905-19900401-1F9E0" + "-" == "FLAG{19770905-19900401-1F9E0-";
    assert "FLAG{19770905-19900401-1F9E0-" + "20090103" == "FLAG{19770905-19900401-1F9E0-20090103";
    assert "FLAG{19770905-19900401-1F9E0-20090103" + "-" == "FLAG{19770905-19900401-1F9E0-20090103-";
    assert "FLAG{19770905-19900401-1F9E0-20090103-" + "0131103628" == "FLAG{19770905-19900401-1F9E0-20090103-0131103628";
  }

  /** The five answers the unit tests expect make the reference flag. */
  lemma FlagOfExpectedAnswers(f: Fetched)
    requires LaunchDate(f.voyagerText) == Ok("19770905")
    requires Rfc1149Date(f.rfcInfo, f.rfcTxt) == Ok("19900401")
    requires BrainCodepoint(f.emojiLines) == Ok("1F9E0")
    requires BtcDate(f.bitcoinSource) == "20090103"
    requires Kr2Isbn10(f.openLibraryDocs) == "0131103628"
    ensures AssembleFlag(f) == Ok("FLAG{19770905-19900401-1F9E0-20090103-0131103628}")
  {
    ReferenceToken();
  }
}
