/** `convert_to_yyyymmdd` (task-1.py:18-33): preprocess the date text, try
    seven `strptime` templates in a fixed order, render the first success as
    `YYYYMMDD`, or raise `ValueError`. */
module DateNormaliser {
  import opened Text
  import opened Calendar
  import opened Outcome

  // ---- preprocessing (task-1.py:20-22) ----

  /** `re.sub(r'\.(?=\s|$)', '', s)` removes the dot at `i`: it is followed by
      whitespace or stands at the end. The lookahead reads the original
      string, so in `"a.. b"` only the second dot goes. */
  predicate DotDroppedAt(s: string, i: int) {
    0 <= i < |s| && s[i] == '.' && (i + 1 == |s| || IsSpace(s[i + 1]))
  }

  /** The string without any `.` at all: what dot removal may not change. */
  function WithoutDots(s: string): (r: string)
    ensures forall k :: 0 <= k < |r| ==> r[k] != '.'
  {
    if s == [] then [] else (if s[0] == '.' then [] else [s[0]]) + WithoutDots(s[1..])
  }

  /** `re.sub(r'\.(?=\s|$)', '', s[i..])`, reading lookaheads in all of `s`. */
  function DropDotsFrom(s: string, i: nat): (r: string)
    requires i <= |s|
    ensures |r| <= |s| - i
    decreases |s| - i
  {
    if i == |s| then [] else (if DotDroppedAt(s, i) then [] else [s[i]]) + DropDotsFrom(s, i + 1)
  }

  /** Dot removal changes nothing when no dot is followed by whitespace or
      the end. */
  lemma {:induction false} DropDotsNone(s: string, i: nat)
    requires i <= |s|
    requires forall k :: i <= k < |s| ==> !DotDroppedAt(s, k)
    ensures DropDotsFrom(s, i) == s[i..]
    decreases |s| - i
  {
    if i < |s| {
      DropDotsNone(s, i + 1);
      assert s[i..] == [s[i]] + s[i + 1..];
    }
  }

  /** Dot removal removes dots and nothing else. */
  lemma {:induction false} DropDotsOnlyDots(s: string, i: nat)
    requires i <= |s|
    ensures WithoutDots(DropDotsFrom(s, i)) == WithoutDots(s[i..])
    decreases |s| - i
  {
    if i < |s| {
      DropDotsOnlyDots(s, i + 1);
      var head := if DotDroppedAt(s, i) then [] else [s[i]];
      WithoutDotsAppend(head, DropDotsFrom(s, i + 1));
      WithoutDotsAppend([s[i]], s[i + 1..]);
      assert s[i..] == [s[i]] + s[i + 1..];
    }
  }

  lemma {:induction false} WithoutDotsAppend(a: string, b: string)
    ensures WithoutDots(a + b) == WithoutDots(a) + WithoutDots(b)
  {
    if a != [] {
      assert (a + b)[1..] == a[1..] + b;
      WithoutDotsAppend(a[1..], b);
    } else {
      assert a + b == b;
    }
  }

  /** `\bSept\b` (case-insensitive) matches at `i`, boundaries read in `s`. */
  predicate SeptWordAt(s: string, i: int) {
    && 0 <= i && i + 4 <= |s|
    && LowerChar(s[i]) == 's' && LowerChar(s[i + 1]) == 'e'
    && LowerChar(s[i + 2]) == 'p' && LowerChar(s[i + 3]) == 't'
    && (i == 0 || !IsWordChar(s[i - 1]))
    && (i + 4 == |s| || !IsWordChar(s[i + 4]))
  }

  /** `re.sub(r'\bSept\b', 'Sep', s[i..], flags=re.IGNORECASE)`: scanning
      left to right, each whole-word `sept` in any case becomes `Sep`. */
  function RewriteSeptFrom(s: string, i: nat): (r: string)
    requires i <= |s|
    ensures |r| <= |s| - i
    decreases |s| - i
  {
    if i == |s| then []
    else if SeptWordAt(s, i) then "Sep" + RewriteSeptFrom(s, i + 4)
    else [s[i]] + RewriteSeptFrom(s, i + 1)
  }

  /** The rewrite changes nothing when there is no whole word `sept`. */
  lemma {:induction false} RewriteNone(s: string, i: nat)
    requires i <= |s|
    requires forall k :: i <= k < |s| ==> !SeptWordAt(s, k)
    ensures RewriteSeptFrom(s, i) == s[i..]
    decreases |s| - i
  {
    if i < |s| {
      RewriteNone(s, i + 1);
      assert s[i..] == [s[i]] + s[i + 1..];
    }
  }

  /** The rewrite stops at a word boundary: a text ending in a non-word
      character is rewritten on its own, whatever follows it. */
  lemma {:induction false} RewriteSplit(pre: string, rest: string, k: nat)
    requires k <= |pre|
    requires pre == [] || !IsWordChar(pre[|pre| - 1])
    ensures RewriteSeptFrom(pre + rest, k) == RewriteSeptFrom(pre, k) + RewriteSeptFrom(pre + rest, |pre|)
    decreases |pre| - k
  {
    var s := pre + rest;
    if k < |pre| {
      SeptWordInPrefix(pre, rest, k);
      assert s[k] == pre[k];
      if SeptWordAt(pre, k) {
        RewriteSplit(pre, rest, k + 4);
      } else {
        RewriteSplit(pre, rest, k + 1);
      }
    }
  }

  /** Before the end of a text that ends in a non-word character, a whole
      word `sept` is found alike with or without what follows. */
  lemma SeptWordInPrefix(pre: string, rest: string, k: nat)
    requires k < |pre| && !IsWordChar(pre[|pre| - 1])
    ensures SeptWordAt(pre + rest, k) == SeptWordAt(pre, k)
    ensures SeptWordAt(pre, k) ==> k + 4 < |pre|
  {
    var s := pre + rest;
    if k + 4 < |pre| {
      assert forall m :: 0 <= m <= k + 4 ==> s[m] == pre[m];
    } else {
      assert s[|pre| - 1] == pre[|pre| - 1];
      assert !IsLetter(pre[|pre| - 1]);
    }
  }

  /** Past a prefix the rewrite reads only what follows it, from a point
      whose left neighbour lies in the suffix, or where the suffix does not
      start with a word character. */
  lemma {:induction false} RewriteShift(x: string, post: string, j: nat)
    requires j <= |post|
    requires j > 0 || post == [] || !IsWordChar(post[0])
    ensures RewriteSeptFrom(x + post, |x| + j) == RewriteSeptFrom(post, j)
    decreases |post| - j
  {
    var s := x + post;
    if j < |post| {
      SeptWordInSuffix(x, post, j);
      assert s[|x| + j] == post[j];
      if SeptWordAt(post, j) {
        RewriteShift(x, post, j + 4);
      } else {
        RewriteShift(x, post, j + 1);
      }
    }
  }

  lemma SeptWordInSuffix(x: string, post: string, j: nat)
    requires j < |post|
    requires j > 0 || !IsWordChar(post[0])
    ensures SeptWordAt(x + post, |x| + j) == SeptWordAt(post, j)
  {
    var s := x + post;
    assert forall m :: 0 <= m < |post| ==> s[|x| + m] == post[m];
    if j == 0 {
      assert !IsLetter(post[0]);
    }
  }

  /** A whole word `sept`, in any case and anywhere in the text, becomes
      `Sep`; the text on either side is rewritten as if on its own. */
  lemma {:induction false} RewriteSeptWord(pre: string, w: string, post: string)
    requires Lower(w) == "sept"
    requires pre == [] || !IsWordChar(pre[|pre| - 1])
    requires post == [] || !IsWordChar(post[0])
    ensures RewriteSeptFrom(pre + w + post, 0) == RewriteSeptFrom(pre, 0) + "Sep" + RewriteSeptFrom(post, 0)
  {
    var s := pre + w + post;
    SeptWordBetween(pre, w, post);
    RewriteAround(pre, w, post);
  }

  lemma {:induction false} RewriteAround(pre: string, w: string, post: string)
    requires |w| == 4 && SeptWordAt(pre + w + post, |pre|)
    requires pre == [] || !IsWordChar(pre[|pre| - 1])
    requires post == [] || !IsWordChar(post[0])
    ensures RewriteSeptFrom(pre + w + post, 0) == RewriteSeptFrom(pre, 0) + "Sep" + RewriteSeptFrom(post, 0)
  {
    var s := pre + w + post;
    var rest := w + post;
    var front := pre + w;
    assert s == pre + rest && s == front + post;
    var a := RewriteSeptFrom(pre, 0);
    var b := RewriteSeptFrom(s, |pre|);
    var c := RewriteSeptFrom(s, |pre| + 4);
    var e := RewriteSeptFrom(post, 0);
    assert RewriteSeptFrom(s, 0) == a + b by {
      RewriteSplit(pre, rest, 0);
    }
    assert b == "Sep" + c by {
      RewriteAt(s, |pre|);
    }
    assert c == e by {
      assert |front| == |pre| + 4;
      RewriteShift(front, post, 0);
    }
    assert a + ("Sep" + e) == a + "Sep" + e;
  }

  lemma RewriteAt(s: string, k: nat)
    requires SeptWordAt(s, k)
    ensures RewriteSeptFrom(s, k) == "Sep" + RewriteSeptFrom(s, k + 4)
  {
  }

  lemma SeptWordBetween(pre: string, w: string, post: string)
    requires Lower(w) == "sept"
    requires pre == [] || !IsWordChar(pre[|pre| - 1])
    requires post == [] || !IsWordChar(post[0])
    ensures SeptWordAt(pre + w + post, |pre|)
  {
    var s := pre + w + post;
    assert |w| == 4;
    assert s[|pre|..|pre| + 4] == w;
    assert LowerChar(w[0]) == 's' && LowerChar(w[1]) == 'e' && LowerChar(w[2]) == 'p' && LowerChar(w[3]) == 't';
    assert |pre| > 0 ==> s[|pre| - 1] == pre[|pre| - 1];
    assert |post| > 0 ==> s[|pre| + 4] == post[0];
  }

  /** Dot removal copies everything up to the first dot. */
  lemma {:induction false} DropDotsUpTo(s: string, i: nat, k: nat)
    requires i <= k < |s| && DotDroppedAt(s, k)
    requires forall j :: i <= j < k ==> s[j] != '.'
    ensures DropDotsFrom(s, i) == s[i..k] + DropDotsFrom(s, k + 1)
    decreases k - i
  {
    if i == k {
      DropDotsAt(s, k);
      assert s[i..k] == [];
    } else {
      DropDotsUpTo(s, i + 1, k);
      DropDotsKeep(s, i);
      assert s[i..k] == [s[i]] + s[i + 1..k];
    }
  }

  lemma DropDotsKeep(s: string, i: nat)
    requires i < |s| && !DotDroppedAt(s, i)
    ensures DropDotsFrom(s, i) == [s[i]] + DropDotsFrom(s, i + 1)
  {
  }

  lemma DropDotsAt(s: string, k: nat)
    requires DotDroppedAt(s, k)
    ensures DropDotsFrom(s, k) == DropDotsFrom(s, k + 1)
  {
  }

  /** A dot followed by whitespace or the end goes; the text around it
      stays. */
  lemma DropOneDot(a: string, b: string)
    requires forall k :: 0 <= k < |a| ==> a[k] != '.'
    requires forall k :: 0 <= k < |b| ==> b[k] != '.'
    requires b == [] || IsSpace(b[0])
    ensures DropDotsFrom(a + "." + b, 0) == a + b
  {
    var s := a + "." + b;
    assert s[0..|a|] == a && s[|a| + 1..] == b;
    assert DotDroppedAt(s, |a|) by {
      assert s[|a|] == '.';
      assert |a| + 1 < |s| ==> s[|a| + 1] == b[0];
    }
    forall j | 0 <= j < |a| ensures s[j] != '.' {
      assert s[j] == s[0..|a|][j];
    }
    forall j | |a| < j < |s| ensures !DotDroppedAt(s, j) {
      assert s[j] == s[|a| + 1..][j - |a| - 1];
    }
    DropDotsUpTo(s, 0, |a|);
    DropDotsNone(s, |a| + 1);
  }

  /** A leading `Sept` followed by a word boundary and no more letters
      becomes `Sep`. */
  lemma RewriteLeadingSept(b: string)
    requires NoLetters(b) && (b == [] || !IsWordChar(b[0]))
    ensures RewriteSeptFrom("Sept" + b, 0) == "Sep" + b
  {
    var s := "Sept" + b;
    assert SeptWordAt(s, 0) by {
      assert s[0] == 'S' && s[1] == 'e' && s[2] == 'p' && s[3] == 't';
      assert b != [] ==> s[4] == b[0];
    }
    forall k | 4 <= k < |s| ensures !SeptWordAt(s, k) {
      assert s[k] == b[k - 4];
    }
    RewriteNone(s, 4);
    assert s[4..] == b;
  }

  /** Lines 20-22 in order: strip, drop abbreviation dots, `Sept` to `Sep`. */
  function Preprocess(s: string): string {
    var t := Strip(s);
    var u := DropDotsFrom(t, 0);
    RewriteSeptFrom(u, 0)
  }

  /** Text with no whitespace at either end, no `.` and no word `sept`
      comes out of preprocessing unchanged. */
  lemma PreprocessKeeps(s: string)
    requires s == [] || (!IsSpace(s[0]) && !IsSpace(s[|s| - 1]))
    requires forall k :: 0 <= k < |s| ==> s[k] != '.'
    requires forall k :: !SeptWordAt(s, k)
    ensures Preprocess(s) == s
  {
    StripUnchanged(s);
    assert s[0..] == s;
    DropDotsNone(s, 0);
    RewriteNone(s, 0);
  }

  // ---- the strptime templates (task-1.py:23-26) ----

  /** The directives of the seven formats. `strptime` turns each run of
      format whitespace into `\s+` and matches the whole text ignoring case. */
  datatype Field =
    | MonthName(full: bool)   // %B (full) or %b (abbreviated)
    | DayOfMonth              // %d: 3[01]|[12]\d|0[1-9]|[1-9]| [1-9]
    | MonthNumber             // %m: 1[0-2]|0[1-9]|[1-9]
    | Year4                   // %Y: \d\d\d\d
    | Blanks                  // a space of the format: \s+
    | Literal(c: char)        // any other format character

  /** "%B %d, %Y", "%b %d, %Y", "%d %B %Y", "%d %b %Y", "%Y-%m-%d",
      "%Y %b %d", "%Y %B %d", in the order they are tried. */
  const Templates: seq<seq<Field>> := [
    [MonthName(true), Blanks, DayOfMonth, Literal(','), Blanks, Year4],
    [MonthName(false), Blanks, DayOfMonth, Literal(','), Blanks, Year4],
    [DayOfMonth, Blanks, MonthName(true), Blanks, Year4],
    [DayOfMonth, Blanks, MonthName(false), Blanks, Year4],
    [Year4, Literal('-'), MonthNumber, Literal('-'), DayOfMonth],
    [Year4, Blanks, MonthName(false), Blanks, DayOfMonth],
    [Year4, Blanks, MonthName(true), Blanks, DayOfMonth]
  ]

  /** The C locale's month names, lower-cased as `strptime` keeps them. */
  const FullMonthNames: seq<string> := ["january", "february", "march", "april", "may", "june",
    "july", "august", "september", "october", "november", "december"]

  const AbbrMonthNames: seq<string> := ["jan", "feb", "mar", "apr", "may", "jun",
    "jul", "aug", "sep", "oct", "nov", "dec"]

  /** The first index at or after `k` where `names` holds `w`. */
  function NameIndex(names: seq<string>, w: string, k: nat): (r: Option<nat>)
    requires k <= |names|
    ensures r.Some? ==> k <= r.value < |names| && names[r.value] == w
    ensures r.None? ==> forall j :: k <= j < |names| ==> names[j] != w
    decreases |names| - k
  {
    if k == |names| then None
    else if names[k] == w then Some(k)
    else NameIndex(names, w, k + 1)
  }

  /** `%B`/`%b`: an alternation of the names followed by `\s+`, which comes to
      the same as: the run of letters at `i`, ignoring case, is a name. */
  function ParseMonthName(s: string, i: nat, full: bool): (r: Option<(int, nat)>)
    requires i <= |s|
    ensures r.Some? ==> 1 <= r.value.0 <= 12 && i <= r.value.1 <= |s|
  {
    var j := Skip(s, i, Letter);
    var names := if full then FullMonthNames else AbbrMonthNames;
    match NameIndex(names, Lower(s[i..j]), 0)
    case None => None
    case Some(k) => Some((k + 1, j))
  }

  /** `%d`: the alternatives of `3[01]|[12]\d|0[1-9]|[1-9]| [1-9]` in order. */
  function ParseDay(s: string, i: nat): (r: Option<(int, nat)>)
    requires i <= |s|
    ensures r.Some? ==> 1 <= r.value.0 <= 31 && i < r.value.1 <= i + 2 && r.value.1 <= |s|
  {
    if i + 2 <= |s| && s[i] == '3' && '0' <= s[i + 1] <= '1' then Some((30 + DigitValue(s[i + 1]), i + 2))
    else if i + 2 <= |s| && '1' <= s[i] <= '2' && IsDigit(s[i + 1]) then
      Some((10 * DigitValue(s[i]) + DigitValue(s[i + 1]), i + 2))
    else if i + 2 <= |s| && s[i] == '0' && '1' <= s[i + 1] <= '9' then Some((DigitValue(s[i + 1]), i + 2))
    else if i + 1 <= |s| && '1' <= s[i] <= '9' then Some((DigitValue(s[i]), i + 1))
    else if i + 2 <= |s| && s[i] == ' ' && '1' <= s[i + 1] <= '9' then Some((DigitValue(s[i + 1]), i + 2))
    else None
  }

  /** `%m`: the alternatives of `1[0-2]|0[1-9]|[1-9]` in order. */
  function ParseMonthNumber(s: string, i: nat): (r: Option<(int, nat)>)
    requires i <= |s|
    ensures r.Some? ==> 1 <= r.value.0 <= 12 && i < r.value.1 <= i + 2 && r.value.1 <= |s|
  {
    if i + 2 <= |s| && s[i] == '1' && '0' <= s[i + 1] <= '2' then Some((10 + DigitValue(s[i + 1]), i + 2))
    else if i + 2 <= |s| && s[i] == '0' && '1' <= s[i + 1] <= '9' then Some((DigitValue(s[i + 1]), i + 2))
    else if i + 1 <= |s| && '1' <= s[i] <= '9' then Some((DigitValue(s[i]), i + 1))
    else None
  }

  /** `%Y`: exactly four digits. */
  function ParseYear(s: string, i: nat): (r: Option<(int, nat)>)
    requires i <= |s|
    ensures r.Some? ==> 0 <= r.value.0 <= 9999 && r.value.1 == i + 4 <= |s|
  {
    assert Pow10(4) == 10000;
    if i + 4 <= |s| && AllDigits(s[i..i + 4]) then Some((Number(s[i..i + 4]), i + 4)) else None
  }

  /** The year, month and day a match has set so far; `strptime` starts from
      1900-01-01. */
  datatype Slots = Slots(year: int, month: int, day: int)

  const Unset := Slots(1900, 1, 1)

  /** One directive of a format at position `i`. */
  function StepField(f: Field, s: string, i: nat, acc: Slots): (r: Option<(Slots, nat)>)
    requires i <= |s|
    ensures r.Some? ==> i <= r.value.1 <= |s|
  {
    match f
    case MonthName(full) =>
      (match ParseMonthName(s, i, full)
       case None => None
       case Some((m, j)) => Some((acc.(month := m), j)))
    case DayOfMonth =>
      (match ParseDay(s, i)
       case None => None
       case Some((v, j)) => Some((acc.(day := v), j)))
    case MonthNumber =>
      (match ParseMonthNumber(s, i)
       case None => None
       case Some((v, j)) => Some((acc.(month := v), j)))
    case Year4 =>
      (match ParseYear(s, i)
       case None => None
       case Some((v, j)) => Some((acc.(year := v), j)))
    case Blanks =>
      var j := Skip(s, i, Space);
      if j == i then None else Some((acc, j))
    case Literal(c) =>
      if i < |s| && LowerChar(s[i]) == LowerChar(c) then Some((acc, i + 1)) else None
  }

  /** The format `fmt` matches `s[i..]` entirely (no unconverted data). */
  function MatchFrom(fmt: seq<Field>, s: string, i: nat, acc: Slots): Option<Slots>
    requires i <= |s|
    decreases |fmt|
  {
    if fmt == [] then (if i == |s| then Some(acc) else None)
    else
      match StepField(fmt[0], s, i, acc)
      case None => None
      case Some((acc', j)) => MatchFrom(fmt[1..], s, j, acc')
  }

  /** `datetime.strptime(p, fmt)` followed by the date check that raises
      `ValueError` for, say, February 30. */
  function TryFormat(p: string, fmt: seq<Field>): (r: Option<Date>)
    ensures r.Some? ==> ValidDate(r.value)
  {
    match MatchFrom(fmt, p, 0, Unset)
    case None => None
    case Some(sl) =>
      var d := Date(sl.year, sl.month, sl.day);
      if ValidDate(d) then Some(d) else None
  }

  /** `datetime.strptime(p, Templates[t])` and its date check. */
  function TryTemplate(p: string, t: nat): (r: Option<Date>)
    requires t < |Templates|
    ensures r.Some? ==> ValidDate(r.value)
  {
    TryFormat(p, Templates[t])
  }

  /** The loop of lines 27-32 over the formats `fmts` from index `t` on:
      the first format that parses wins. */
  function FirstFormat(p: string, fmts: seq<seq<Field>>, t: nat): (r: Option<(nat, Date)>)
    requires t <= |fmts|
    ensures r.Some? ==> t <= r.value.0 < |fmts| && TryFormat(p, fmts[r.value.0]) == Some(r.value.1)
    ensures r.Some? ==> forall k :: t <= k < r.value.0 ==> TryFormat(p, fmts[k]).None?
    ensures r.None? <==> forall k :: t <= k < |fmts| ==> TryFormat(p, fmts[k]).None?
    decreases |fmts| - t
  {
    if t == |fmts| then None
    else
      var here := TryFormat(p, fmts[t]);
      if here.Some? then Some((t, here.value)) else FirstFormat(p, fmts, t + 1)
  }

  /** The same loop over the seven templates. */
  function FirstTemplate(p: string, t: nat): (r: Option<(nat, Date)>)
    requires t <= |Templates|
    ensures r.Some? ==> t <= r.value.0 < |Templates| && TryTemplate(p, r.value.0) == Some(r.value.1)
    ensures r.Some? ==> forall k :: t <= k < r.value.0 ==> TryTemplate(p, k).None?
    ensures r.None? <==> forall k :: t <= k < |Templates| ==> TryTemplate(p, k).None?
  {
    FirstFormat(p, Templates, t)
  }

  /** `convert_to_yyyymmdd`: the rendering of the first template that parses
      the preprocessed text; a `ValueError` naming the preprocessed text when
      none does. */
  function Convert(s: string): (r: Result<string>)
    ensures r.Ok? ==> IsCanonicalDate(r.value)
    ensures r.Ok? <==> exists t :: 0 <= t < |Templates| && TryTemplate(Preprocess(s), t).Some?
    ensures r.Err? ==> r.error == ValueError(Unparsed(Preprocess(s)))
  {
    Interpret(Preprocess(s))
  }

  /** Lines 27-33 on the preprocessed text `p`. */
  function Interpret(p: string): (r: Result<string>)
    ensures r.Ok? ==> IsCanonicalDate(r.value)
    ensures r.Ok? <==> exists t :: 0 <= t < |Templates| && TryTemplate(p, t).Some?
    ensures r.Err? ==> r.error == ValueError(Unparsed(p))
  {
    match FirstTemplate(p, 0)
    case None => Err(ValueError(Unparsed(p)))
    case Some((t, d)) => RenderIsCanonical(d); Ok(Render(d))
  }

  /** The same loop written as the source writes it. */
  method ConvertToYyyymmdd(s: string) returns (r: Result<string>)
    ensures r == Convert(s)
  {
    var p := Preprocess(s);
    var t := 0;
    while t < |Templates|
      invariant 0 <= t <= |Templates|
      invariant FirstTemplate(p, 0) == FirstTemplate(p, t)
    {
      var parsed := TryTemplate(p, t);
      if parsed.Some? {
        InterpretFound(p, t);
        return Ok(Render(parsed.value));
      }
      TemplateFails(p, t);
      t := t + 1;
    }
    InterpretNotFound(p);
    return Err(ValueError(Unparsed(p)));
  }

  /** A template that fails passes the loop on to the next one. */
  lemma TemplateFails(p: string, t: nat)
    requires t < |Templates| && TryTemplate(p, t).None?
    ensures FirstTemplate(p, t) == FirstTemplate(p, t + 1)
  {
  }

  /** The loop returns at the first template that parses. */
  lemma InterpretFound(p: string, t: nat)
    requires t < |Templates| && FirstTemplate(p, 0) == FirstTemplate(p, t)
    requires TryTemplate(p, t).Some?
    ensures Interpret(p) == Ok(Render(TryTemplate(p, t).value))
  {
  }

  /** The loop that runs out of templates raises. */
  lemma InterpretNotFound(p: string)
    requires FirstTemplate(p, 0) == FirstTemplate(p, |Templates|)
    ensures Interpret(p) == Err(ValueError(Unparsed(p)))
  {
  }
}
