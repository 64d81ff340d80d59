/** How each of the seven templates writes a date, and the proof that the
    date normaliser reads every such spelling back as the same canonical
    `YYYYMMDD` (task-1.py:18-33). */
module DateSpellings {
  import opened Text
  import opened Calendar
  import opened Outcome
  import opened DateNormaliser

  // ---- month names ----

  predicate IsLowerWord(w: string) {
    w != [] && forall k :: 0 <= k < |w| ==> 'a' <= w[k] <= 'z'
  }

  /** The name with its first letter upper-cased, as `strftime` writes it. */
  function Capitalize(w: string): (r: string)
    requires w != []
    ensures |r| == |w|
  {
    [UpperChar(w[0])] + w[1..]
  }

  function MonthNames(full: bool): seq<string> {
    if full then FullMonthNames else AbbrMonthNames
  }

  lemma MonthNameWellFormed(full: bool, m: nat)
    requires m < 12
    ensures |MonthNames(full)| == 12
    ensures IsLowerWord(MonthNames(full)[m])
    ensures MonthNames(full)[m] != "sept"
  {
  }

  lemma MonthNamesDistinct(full: bool, a: nat, b: nat)
    requires a < 12 && b < 12 && a != b
    ensures MonthNames(full)[a] != MonthNames(full)[b]
  {
  }

  /** Only "may" is both a full name and an abbreviation. */
  lemma MonthNamesCross(m: nat, j: nat)
    requires m < 12 && j < 12
    ensures FullMonthNames[j] == AbbrMonthNames[m] <==> j == 4 && m == 4
  {
    assert forall k :: 0 <= k < 12 ==> |AbbrMonthNames[k]| == 3;
    assert forall k :: 0 <= k < 12 && k != 4 ==> |FullMonthNames[k]| > 3;
  }

  lemma LowerCapitalize(w: string)
    requires IsLowerWord(w)
    ensures Lower(Capitalize(w)) == w
    ensures AllLetters(Capitalize(w))
  {
    var c := Capitalize(w);
    forall k | 0 <= k < |w| ensures Lower(c)[k] == w[k] && IsLetter(c[k]) {
      if k == 0 {
        assert c[0] == UpperChar(w[0]);
      } else {
        assert c[k] == w[k];
      }
    }
  }

  lemma NameIndexOf(full: bool, m: nat)
    requires m < 12
    ensures NameIndex(MonthNames(full), MonthNames(full)[m], 0) == Some(m)
  {
    var r := NameIndex(MonthNames(full), MonthNames(full)[m], 0);
    if r.None? {
      assert false;
    } else if r.value != m {
      MonthNamesDistinct(full, r.value, m);
    }
  }

  // ---- spelling a date in a template ----

  /** A date every directive can write: a four-digit year, a month number
      and a day of at most two digits. Every valid date is one; so is
      February 30. */
  predicate Spellable(d: Date) {
    1 <= d.year <= 9999 && 1 <= d.month <= 12 && 1 <= d.day <= 31
  }

  /** `strftime` of one directive; `padDay` chooses "05" or "5" for `%d`. */
  function FieldText(f: Field, d: Date, padDay: bool): (r: string)
    requires Spellable(d)
    ensures r != []
  {
    match f
    case MonthName(full) => Capitalize(MonthNames(full)[d.month - 1])
    case DayOfMonth => if padDay || d.day >= 10 then Pad(d.day, 2) else [DigitChar(d.day)]
    case MonthNumber => Pad(d.month, 2)
    case Year4 => Pad(d.year, 4)
    case Blanks => " "
    case Literal(c) => [c]
  }

  function Spell(fmt: seq<Field>, d: Date, padDay: bool): string
    requires Spellable(d)
  {
    if fmt == [] then [] else FieldText(fmt[0], d, padDay) + Spell(fmt[1..], d, padDay)
  }

  /** The slot a directive fills with its part of `d`. */
  function SetSlot(f: Field, d: Date, acc: Slots): Slots {
    match f
    case MonthName(_) => acc.(month := d.month)
    case MonthNumber => acc.(month := d.month)
    case DayOfMonth => acc.(day := d.day)
    case Year4 => acc.(year := d.year)
    case _ => acc
  }

  function Fill(fmt: seq<Field>, d: Date, acc: Slots): Slots {
    if fmt == [] then acc else Fill(fmt[1..], d, SetSlot(fmt[0], d, acc))
  }

  /** What may follow the text of `f` without the directive reading on. */
  predicate StopsBefore(f: Field, c: char) {
    match f
    case MonthName(_) => !IsLetter(c)
    case Blanks => !IsSpace(c)
    case DayOfMonth => !IsDigit(c)
    case _ => true
  }

  /** `g` may follow `f` in a format: the text of `g` stops `f`. */
  predicate Follows(f: Field, g: Field) {
    match f
    case MonthName(_) => g.Blanks? || (g.Literal? && !IsLetter(g.c))
    case Blanks => !g.Blanks? && !(g.Literal? && IsSpace(g.c))
    case DayOfMonth => (g.Blanks? || g.Literal?) && !(g.Literal? && IsDigit(g.c))
    case _ => true
  }

  predicate Separated(fmt: seq<Field>) {
    |fmt| < 2 || (Follows(fmt[0], fmt[1]) && Separated(fmt[1..]))
  }

  lemma FollowsStops(f: Field, g: Field, d: Date, padDay: bool)
    requires Spellable(d) && Follows(f, g)
    ensures StopsBefore(f, FieldText(g, d, padDay)[0])
  {
    if g.MonthName? {
      MonthNameWellFormed(g.full, d.month - 1);
      LowerCapitalize(MonthNames(g.full)[d.month - 1]);
    }
  }

  lemma Pad2Chars(n: nat)
    requires n < 100
    ensures Pad(n, 2) == [DigitChar(n / 10), DigitChar(n % 10)]
  {
    var a := n / 10;
    assert a < 10 && a % 10 == a;
    assert Pad(a, 1) == Pad(a / 10, 0) + [DigitChar(a % 10)];
  }

  /** One directive reads back its own text. */
  lemma StepSpelled(f: Field, d: Date, padDay: bool, s: string, i: nat, j: nat, acc: Slots)
    requires Spellable(d)
    requires j == i + |FieldText(f, d, padDay)| <= |s|
    requires s[i..j] == FieldText(f, d, padDay)
    requires j < |s| ==> StopsBefore(f, s[j])
    ensures StepField(f, s, i, acc) == Some((SetSlot(f, d, acc), j))
  {
    var text := FieldText(f, d, padDay);
    match f
    case MonthName(full) =>
      assert text == FieldText(MonthName(full), d, false);
      StepMonthName(full, d, s, i, j, acc);
      assert SetSlot(f, d, acc) == acc.(month := d.month);
    case DayOfMonth =>
      assert text == FieldText(DayOfMonth, d, padDay);
      StepDay(d, padDay, s, i, j, acc);
      assert SetSlot(f, d, acc) == acc.(day := d.day);
    case _ => StepFixed(f, d, padDay, s, i, j, acc);
  }

  /** The directives whose text has a fixed width. */
  lemma StepFixed(f: Field, d: Date, padDay: bool, s: string, i: nat, j: nat, acc: Slots)
    requires Spellable(d) && !f.MonthName? && !f.DayOfMonth?
    requires j == i + |FieldText(f, d, padDay)| <= |s|
    requires s[i..j] == FieldText(f, d, padDay)
    requires j < |s| ==> StopsBefore(f, s[j])
    ensures StepField(f, s, i, acc) == Some((SetSlot(f, d, acc), j))
  {
    match f
    case MonthNumber =>
      Pad2Chars(d.month);
      assert s[i] == Pad(d.month, 2)[0] && s[i + 1] == Pad(d.month, 2)[1];
    case Year4 =>
      assert Pow10(4) == 10000;
      NumberPad(d.year, 4);
    case Blanks =>
      assert s[i] == ' ';
      SkipExact(s, i, i + 1, Space);
    case Literal(c) =>
      assert s[i] == c;
  }

  lemma StepMonthName(full: bool, d: Date, s: string, i: nat, j: nat, acc: Slots)
    requires Spellable(d)
    requires j == i + |FieldText(MonthName(full), d, false)| <= |s|
    requires s[i..j] == FieldText(MonthName(full), d, false)
    requires j < |s| ==> !IsLetter(s[j])
    ensures StepField(MonthName(full), s, i, acc) == Some((acc.(month := d.month), j))
  {
    var name := MonthNames(full)[d.month - 1];
    assert IsLowerWord(name) by {
      MonthNameWellFormed(full, d.month - 1);
    }
    WordRun(name, s, i, j);
    StepNameWord(full, d.month, s, i, j, acc);
  }

  /** A run of letters that lower-cases to a month name reads as that
      month. */
  lemma StepNameWord(full: bool, month: int, s: string, i: nat, j: nat, acc: Slots)
    requires 1 <= month <= 12 && i <= j <= |s|
    requires Skip(s, i, Letter) == j && Lower(s[i..j]) == MonthNames(full)[month - 1]
    ensures StepField(MonthName(full), s, i, acc) == Some((acc.(month := month), j))
  {
    NameIndexOf(full, month - 1);
    NameLookup(full, s[i..j], month - 1);
  }

  lemma NoEmptyName(full: bool)
    ensures NameIndex(MonthNames(full), [], 0) == None
  {
    var r := NameIndex(MonthNames(full), [], 0);
    if r.Some? {
      MonthNameWellFormed(full, r.value);
    }
  }

  lemma NameLookup(full: bool, w: string, m: nat)
    requires m < 12 && Lower(w) == MonthNames(full)[m]
    requires NameIndex(MonthNames(full), MonthNames(full)[m], 0) == Some(m)
    ensures NameIndex(if full then FullMonthNames else AbbrMonthNames, Lower(w), 0) == Some(m)
  {
  }

  /** What a month-name directive writes and fills. */
  lemma MonthField(f: Field, d: Date, padDay: bool, acc: Slots)
    requires Spellable(d) && f.MonthName?
    ensures FieldText(f, d, padDay) == Capitalize(MonthNames(f.full)[d.month - 1])
    ensures SetSlot(f, d, acc) == acc.(month := d.month)
  {
  }

  /** The other kind of month name reads a spelled name either not at all
      or as the same month: only "May" is both. */
  lemma StepOtherSpelled(full: bool, month: int, g: Field, s: string, i: nat, j: nat, acc: Slots, filled: Slots)
    requires 1 <= month <= 12 && j == i + |Capitalize(MonthNames(full)[month - 1])| <= |s|
    requires s[i..j] == Capitalize(MonthNames(full)[month - 1])
    requires j < |s| ==> !IsLetter(s[j])
    requires g == MonthName(!full) && filled == acc.(month := month)
    ensures NoneOr(StepField(g, s, i, acc), (filled, j))
  {
    var name := MonthNames(full)[month - 1];
    MonthNameWellFormed(full, month - 1);
    WordRun(name, s, i, j);
    StepOtherWord(full, month, s, i, j, acc);
  }

  lemma StepOtherWord(full: bool, month: int, s: string, i: nat, j: nat, acc: Slots)
    requires 1 <= month <= 12 && i <= j <= |s|
    requires Skip(s, i, Letter) == j && Lower(s[i..j]) == MonthNames(full)[month - 1]
    ensures StepField(MonthName(!full), s, i, acc) == None
         || StepField(MonthName(!full), s, i, acc) == Some((acc.(month := month), j))
  {
    OtherNameIndex(full, month - 1);
    var r := NameIndex(MonthNames(!full), MonthNames(full)[month - 1], 0);
    assert NameIndex(if !full then FullMonthNames else AbbrMonthNames, Lower(s[i..j]), 0) == r;
  }

  /** Looked up among the other kind of names, a month name is missing or
      names the same month. */
  lemma OtherNameIndex(full: bool, m: nat)
    requires m < 12
    ensures var r := NameIndex(MonthNames(!full), MonthNames(full)[m], 0);
      r == None || r == Some(m)
  {
    var r := NameIndex(MonthNames(!full), MonthNames(full)[m], 0);
    if r.Some? {
      if full {
        MonthNamesCross(r.value, m);
      } else {
        MonthNamesCross(m, r.value);
      }
    }
  }

  /** The letters of a capitalised lower-case word form one run, and it
      lower-cases back to the word. */
  lemma WordRun(name: string, s: string, i: nat, j: nat)
    requires IsLowerWord(name) && j == i + |name| <= |s|
    requires s[i..j] == Capitalize(name)
    requires j < |s| ==> !IsLetter(s[j])
    ensures Skip(s, i, Letter) == j
    ensures Lower(s[i..j]) == name
  {
    var text := Capitalize(name);
    LowerCapitalize(name);
    forall k | i <= k < j ensures InClass(s[k], Letter) {
      assert s[k] == text[k - i];
    }
    SkipExact(s, i, j, Letter);
  }

  lemma StepDay(d: Date, padDay: bool, s: string, i: nat, j: nat, acc: Slots)
    requires Spellable(d)
    requires j == i + |FieldText(DayOfMonth, d, padDay)| <= |s|
    requires s[i..j] == FieldText(DayOfMonth, d, padDay)
    requires j < |s| ==> !IsDigit(s[j])
    ensures StepField(DayOfMonth, s, i, acc) == Some((acc.(day := d.day), j))
  {
    var text := FieldText(DayOfMonth, d, padDay);
    if padDay || d.day >= 10 {
      Pad2Chars(d.day);
      assert s[i] == text[0] && s[i + 1] == text[1];
      DayOfTwoDigits(s, i, d.day);
    } else {
      assert s[i] == text[0];
      DayOfOneDigit(s, i, d.day);
    }
  }

  /** `%d` reads a day written with two digits as that day. */
  lemma DayOfTwoDigits(s: string, i: nat, n: nat)
    requires 1 <= n <= 31 && i + 2 <= |s|
    requires s[i] == DigitChar(n / 10) && s[i + 1] == DigitChar(n % 10)
    ensures ParseDay(s, i) == Some((n, i + 2))
  {
    var a, b := n / 10, n % 10;
    assert n == 10 * a + b;
    assert DigitValue(s[i]) == a && DigitValue(s[i + 1]) == b;
    if a == 3 {
      assert s[i] == '3' && '0' <= s[i + 1] <= '1';
    } else if a >= 1 {
      assert '1' <= s[i] <= '2';
    } else {
      assert s[i] == '0' && '1' <= s[i + 1] <= '9';
    }
  }

  /** `%d` reads a single digit not followed by another as that day. */
  lemma DayOfOneDigit(s: string, i: nat, n: nat)
    requires 1 <= n <= 9 && i < |s| && s[i] == DigitChar(n)
    requires i + 1 < |s| ==> !IsDigit(s[i + 1])
    ensures ParseDay(s, i) == Some((n, i + 1))
  {
    assert '1' <= s[i] <= '9' && DigitValue(s[i]) == n;
  }

  /** A format reads back its own spelling of `d`, filling in exactly the
      slots of `d` that it names. */
  lemma {:induction false} MatchSpelled(fmt: seq<Field>, d: Date, padDay: bool, s: string, i: nat, acc: Slots)
    requires Spellable(d) && Separated(fmt)
    requires i <= |s| && s[i..] == Spell(fmt, d, padDay)
    ensures MatchFrom(fmt, s, i, acc) == Some(Fill(fmt, d, acc))
    decreases |fmt|
  {
    if fmt != [] {
      var f := fmt[0];
      var j := i + |FieldText(f, d, padDay)|;
      SpellSplit(fmt, d, padDay, s, i, j);
      StepSpelled(f, d, padDay, s, i, j, acc);
      var acc' := SetSlot(f, d, acc);
      MatchSpelled(fmt[1..], d, padDay, s, j, acc');
      MatchFromStep(fmt, s, i, acc, acc', j);
      assert Fill(fmt, d, acc) == Fill(fmt[1..], d, acc');
    }
  }

  lemma SpellCons(fmt: seq<Field>, d: Date, padDay: bool)
    requires Spellable(d) && fmt != []
    ensures Spell(fmt, d, padDay) == FieldText(fmt[0], d, padDay) + Spell(fmt[1..], d, padDay)
  {
  }

  /** The spelling of a non-empty format is its first directive's text
      followed by the rest, and what follows that text stops the directive. */
  lemma SpellSplit(fmt: seq<Field>, d: Date, padDay: bool, s: string, i: nat, j: nat)
    requires Spellable(d) && Separated(fmt) && fmt != []
    requires j == i + |FieldText(fmt[0], d, padDay)|
    requires i <= |s| && s[i..] == Spell(fmt, d, padDay)
    ensures j <= |s| && s[i..j] == FieldText(fmt[0], d, padDay)
    ensures s[j..] == Spell(fmt[1..], d, padDay)
    ensures j < |s| ==> StopsBefore(fmt[0], s[j])
  {
    var text := FieldText(fmt[0], d, padDay);
    var tail := Spell(fmt[1..], d, padDay);
    SpellCons(fmt, d, padDay);
    assert s[i..j] == (text + tail)[..|text|];
    assert s[j..] == (text + tail)[|text|..];
    if |fmt| >= 2 {
      NextStops(fmt, d, padDay);
      assert s[j] == tail[0];
    }
  }

  lemma NextStops(fmt: seq<Field>, d: Date, padDay: bool)
    requires Spellable(d) && Separated(fmt) && |fmt| >= 2
    ensures Spell(fmt[1..], d, padDay) != []
    ensures StopsBefore(fmt[0], Spell(fmt[1..], d, padDay)[0])
  {
    FollowsStops(fmt[0], fmt[1], d, padDay);
    SpellCons(fmt[1..], d, padDay);
  }

  // ---- preprocessing leaves a spelling alone ----

  /** No whole-word `sept` in a text whose only letters form one word
      other than `sept`. */
  lemma NoSeptIn(pre: string, w: string, post: string)
    requires NoLetters(pre) && NoLetters(post) && AllLetters(w) && Lower(w) != "sept"
    ensures forall k :: !SeptWordAt(pre + w + post, k)
  {
    var s := pre + w + post;
    forall k | 0 <= k && k + 4 <= |s| ensures !SeptWordAt(s, k) {
      if k == |pre| && |w| == 4 {
        assert s[k..k + 4] == w;
      }
    }
  }

  /** A spelling cut into the text before the month name, the name (empty
      for the numeric template) and the text after it. */
  function Layout(t: nat, d: Date, padDay: bool): (string, string, string)
    requires t < |Templates| && Spellable(d)
  {
    var day := FieldText(DayOfMonth, d, padDay);
    var year := Pad(d.year, 4);
    match t
    case 0 => ("", FieldText(MonthName(true), d, padDay), " " + day + ", " + year)
    case 1 => ("", FieldText(MonthName(false), d, padDay), " " + day + ", " + year)
    case 2 => (day + " ", FieldText(MonthName(true), d, padDay), " " + year)
    case 3 => (day + " ", FieldText(MonthName(false), d, padDay), " " + year)
    case 4 => (year + "-" + Pad(d.month, 2) + "-" + day, "", "")
    case 5 => (year + " ", FieldText(MonthName(false), d, padDay), " " + day)
    case _ => (year + " ", FieldText(MonthName(true), d, padDay), " " + day)
  }

  lemma SpellLayout(t: nat, d: Date, padDay: bool)
    requires t < |Templates| && Spellable(d)
    ensures Spell(Templates[t], d, padDay) == Layout(t, d, padDay).0 + Layout(t, d, padDay).1 + Layout(t, d, padDay).2
  {
    if t <= 1 {
      LayoutNameFirst(t, d, padDay);
    } else if t <= 3 {
      LayoutDayFirst(t, d, padDay);
    } else if t == 4 {
      LayoutIso(d, padDay);
    } else {
      LayoutYearFirst(t, d, padDay);
    }
  }

  lemma LayoutNameFirst(t: nat, d: Date, padDay: bool)
    requires t <= 1 && Spellable(d)
    ensures Spell(Templates[t], d, padDay) == Layout(t, d, padDay).0 + Layout(t, d, padDay).1 + Layout(t, d, padDay).2
  {
    var T := Templates[t];
    assert T == [MonthName(t == 0), Blanks, DayOfMonth, Literal(','), Blanks, Year4];
    SpellFields(T, d, padDay);
  }

  lemma LayoutIso(d: Date, padDay: bool)
    requires Spellable(d)
    ensures Spell(Templates[4], d, padDay) == Layout(4, d, padDay).0 + Layout(4, d, padDay).1 + Layout(4, d, padDay).2
  {
    var T := Templates[4];
    assert T == [Year4, Literal('-'), MonthNumber, Literal('-'), DayOfMonth];
    SpellFields(T, d, padDay);
  }

  lemma LayoutDayFirst(t: nat, d: Date, padDay: bool)
    requires 2 <= t <= 3 && Spellable(d)
    ensures Spell(Templates[t], d, padDay) == Layout(t, d, padDay).0 + Layout(t, d, padDay).1 + Layout(t, d, padDay).2
  {
    var T := Templates[t];
    assert T == [DayOfMonth, Blanks, MonthName(t == 2), Blanks, Year4];
    SpellFields(T, d, padDay);
  }

  lemma LayoutYearFirst(t: nat, d: Date, padDay: bool)
    requires 5 <= t <= 6 && Spellable(d)
    ensures Spell(Templates[t], d, padDay) == Layout(t, d, padDay).0 + Layout(t, d, padDay).1 + Layout(t, d, padDay).2
  {
    var T := Templates[t];
    assert T == [Year4, Blanks, MonthName(t == 6), Blanks, DayOfMonth];
    SpellFields(T, d, padDay);
  }

  /** Unfolds the spelling of a template-sized format directive by directive. */
  lemma SpellFields(fmt: seq<Field>, d: Date, padDay: bool)
    requires Spellable(d) && 5 <= |fmt| <= 6
    ensures Spell(fmt, d, padDay) == FieldText(fmt[0], d, padDay) + Spell(fmt[1..], d, padDay)
    ensures Spell(fmt[1..], d, padDay) == FieldText(fmt[1], d, padDay) + Spell(fmt[2..], d, padDay)
    ensures Spell(fmt[2..], d, padDay) == FieldText(fmt[2], d, padDay) + Spell(fmt[3..], d, padDay)
    ensures Spell(fmt[3..], d, padDay) == FieldText(fmt[3], d, padDay) + Spell(fmt[4..], d, padDay)
    ensures Spell(fmt[4..], d, padDay) == FieldText(fmt[4], d, padDay) + Spell(fmt[5..], d, padDay)
    ensures |fmt| == 5 ==> Spell(fmt[5..], d, padDay) == []
    ensures |fmt| == 6 ==> Spell(fmt[5..], d, padDay) == FieldText(fmt[5], d, padDay)
  {
    assert fmt[0..] == fmt;
    SpellSuffix(fmt, 0, d, padDay);
    SpellSuffix(fmt, 1, d, padDay);
    SpellSuffix(fmt, 2, d, padDay);
    SpellSuffix(fmt, 3, d, padDay);
    SpellSuffix(fmt, 4, d, padDay);
    if |fmt| == 6 {
      SpellSuffix(fmt, 5, d, padDay);
      assert fmt[6..] == [];
    } else {
      assert fmt[5..] == [];
    }
  }

  lemma SpellSuffix(fmt: seq<Field>, k: nat, d: Date, padDay: bool)
    requires Spellable(d) && k < |fmt|
    ensures Spell(fmt[k..], d, padDay) == FieldText(fmt[k], d, padDay) + Spell(fmt[k + 1..], d, padDay)
  {
    SpellCons(fmt[k..], d, padDay);
    assert fmt[k..][1..] == fmt[k + 1..];
  }

  /** Text made only of digits, blanks, commas and hyphens. */
  predicate Plain(s: string) {
    forall k :: 0 <= k < |s| ==> IsDigit(s[k]) || s[k] == ' ' || s[k] == ',' || s[k] == '-'
  }

  lemma DayTextDigits(d: Date, padDay: bool)
    requires Spellable(d)
    ensures AllDigits(FieldText(DayOfMonth, d, padDay))
  {
  }

  lemma PlainDigits(s: string)
    requires AllDigits(s)
    ensures Plain(s)
  {
  }

  lemma PlainJoin(a: string, b: string)
    requires Plain(a) && Plain(b)
    ensures Plain(a + b)
  {
    forall k | 0 <= k < |a + b|
      ensures IsDigit((a + b)[k]) || (a + b)[k] == ' ' || (a + b)[k] == ',' || (a + b)[k] == '-'
    {
      if k >= |a| {
        assert (a + b)[k] == b[k - |a|];
      }
    }
  }

  /** The text around the month name of a spelling is plain. */
  lemma LayoutPlain(t: nat, d: Date, padDay: bool)
    requires t < |Templates| && Spellable(d)
    ensures Plain(Layout(t, d, padDay).0) && Plain(Layout(t, d, padDay).2)
  {
    var day := FieldText(DayOfMonth, d, padDay);
    var year := Pad(d.year, 4);
    DayTextDigits(d, padDay);
    PlainDigits(day);
    PlainDigits(year);
    PlainDigits(Pad(d.month, 2));
    assert Plain(" ") && Plain(", ") && Plain("-") && Plain("");
    if t <= 1 {
      PlainJoin(" ", day);
      PlainJoin(" " + day, ", ");
      PlainJoin(" " + day + ", ", year);
    } else if t <= 3 {
      PlainJoin(day, " ");
      PlainJoin(" ", year);
    } else if t == 4 {
      PlainJoin(year, "-");
      PlainJoin(year + "-", Pad(d.month, 2));
      PlainJoin(year + "-" + Pad(d.month, 2), "-");
      PlainJoin(year + "-" + Pad(d.month, 2) + "-", day);
    } else {
      PlainJoin(year, " ");
      PlainJoin(" ", day);
    }
  }

  /** The month name of a spelling is one capitalised word other than
      `sept`; the rest is plain. */
  lemma LayoutParts(t: nat, d: Date, padDay: bool)
    requires t < |Templates| && Spellable(d)
    ensures Plain(Layout(t, d, padDay).0) && Plain(Layout(t, d, padDay).2)
    ensures AllLetters(Layout(t, d, padDay).1) && Lower(Layout(t, d, padDay).1) != "sept"
  {
    LayoutPlain(t, d, padDay);
    if t != 4 {
      LayoutName(t, d, padDay);
      SpelledNameWord(t == 0 || t == 2 || t == 6, d, padDay);
    } else {
      assert Layout(t, d, padDay).1 == [];
    }
  }

  lemma LayoutName(t: nat, d: Date, padDay: bool)
    requires t < |Templates| && t != 4 && Spellable(d)
    ensures Layout(t, d, padDay).1 == FieldText(MonthName(t == 0 || t == 2 || t == 6), d, padDay)
  {
  }


  /** A spelling neither starts nor ends with whitespace. */
  lemma LayoutEnds(t: nat, d: Date, padDay: bool)
    requires t < |Templates| && Spellable(d)
    ensures var s := Spell(Templates[t], d, padDay); s != [] && !IsSpace(s[0]) && !IsSpace(s[|s| - 1])
  {
    var s := Spell(Templates[t], d, padDay);
    SpellingStart(t, d, padDay);
    SpellingEnd(t, d, padDay);
    assert IsLetter(s[0]) || IsDigit(s[0]);
  }

  /** A spelling ends with the last digit of its year or day. */
  lemma SpellingEnd(t: nat, d: Date, padDay: bool)
    requires t < |Templates| && Spellable(d)
    ensures var s := Spell(Templates[t], d, padDay); s != [] && IsDigit(s[|s| - 1])
  {
    var s := Spell(Templates[t], d, padDay);
    SpellLayout(t, d, padDay);
    var (pre, w, post) := Layout(t, d, padDay);
    LayoutLastDigit(t, d, padDay);
    if t == 4 {
      assert s == pre;
    } else {
      LastOfJoin(pre + w, post);
    }
  }

  /** The part of a layout that ends the spelling ends with a digit. */
  lemma LayoutLastDigit(t: nat, d: Date, padDay: bool)
    requires t < |Templates| && Spellable(d)
    ensures var (pre, w, post) := Layout(t, d, padDay);
      && (t == 4 ==> w == [] && post == [] && pre != [] && IsDigit(pre[|pre| - 1]))
      && (t != 4 ==> post != [] && IsDigit(post[|post| - 1]))
  {
    var day := FieldText(DayOfMonth, d, padDay);
    var year := Pad(d.year, 4);
    DayTextDigits(d, padDay);
    if t <= 1 {
      LastOfJoin(" " + day + ", ", year);
    } else if t <= 3 {
      LastOfJoin(" ", year);
    } else if t == 4 {
      LastOfJoin(year + "-" + Pad(d.month, 2) + "-", day);
    } else {
      LastOfJoin(" ", day);
    }
  }

  lemma LastOfJoin(a: string, b: string)
    requires b != []
    ensures (a + b)[|a + b| - 1] == b[|b| - 1]
  {
  }

  /** Stripping, dot removal and the `Sept` rewrite leave every spelling of
      every template as it is. */
  lemma PreprocessSpelled(t: nat, d: Date, padDay: bool)
    requires t < |Templates| && Spellable(d)
    ensures Preprocess(Spell(Templates[t], d, padDay)) == Spell(Templates[t], d, padDay)
  {
    var (pre, w, post) := Layout(t, d, padDay);
    SpellLayout(t, d, padDay);
    LayoutParts(t, d, padDay);
    LayoutEnds(t, d, padDay);
    PreprocessParts(pre, w, post);
  }

  /** Plain text around one word other than `sept`, with no whitespace at
      either end, comes out of preprocessing unchanged. */
  lemma PreprocessParts(pre: string, w: string, post: string)
    requires Plain(pre) && Plain(post) && AllLetters(w) && Lower(w) != "sept"
    requires var s := pre + w + post; s != [] && !IsSpace(s[0]) && !IsSpace(s[|s| - 1])
    ensures Preprocess(pre + w + post) == pre + w + post
  {
    PartsNoDot(pre, w, post);
    NoSeptIn(pre, w, post);
    PreprocessKeeps(pre + w + post);
  }

  /** Plain text around a word of letters has no dot. */
  lemma PartsNoDot(pre: string, w: string, post: string)
    requires Plain(pre) && Plain(post) && AllLetters(w)
    ensures forall k :: 0 <= k < |pre + w + post| ==> (pre + w + post)[k] != '.'
  {
    var s := pre + w + post;
    forall k | 0 <= k < |s| ensures s[k] != '.' {
      if k < |pre| {
        assert s[k] == pre[k];
      } else if k < |pre| + |w| {
        assert s[k] == w[k - |pre|];
      } else {
        assert s[k] == post[k - |pre| - |w|];
      }
    }
  }

  // ---- each template reads its own spelling ----

  lemma TemplatesSeparated(t: nat)
    requires t < |Templates|
    ensures Separated(Templates[t])
  {
  }

  predicate SetsMonth(fmt: seq<Field>) {
    MonthNumber in fmt || MonthName(true) in fmt || MonthName(false) in fmt
  }

  /** A format sets exactly the slots it has a directive for. */
  lemma {:induction false} FillSets(fmt: seq<Field>, d: Date, acc: Slots)
    ensures Fill(fmt, d, acc) == Slots(
      if Year4 in fmt then d.year else acc.year,
      if SetsMonth(fmt) then d.month else acc.month,
      if DayOfMonth in fmt then d.day else acc.day)
    decreases |fmt|
  {
    if fmt != [] {
      FillSets(fmt[1..], d, SetSlot(fmt[0], d, acc));
      assert fmt == [fmt[0]] + fmt[1..];
    }
  }

  /** Every template sets the year, the month and the day. */
  lemma TemplateFills(t: nat, d: Date)
    requires t < |Templates|
    ensures Fill(Templates[t], d, Unset) == Slots(d.year, d.month, d.day)
  {
    FillSets(Templates[t], d, Unset);
  }

  lemma TemplateReadsOwnSpelling(t: nat, d: Date, padDay: bool)
    requires t < |Templates| && Spellable(d)
    ensures TryTemplate(Spell(Templates[t], d, padDay), t) == if ValidDate(d) then Some(d) else None
  {
    var s := Spell(Templates[t], d, padDay);
    TemplatesSeparated(t);
    assert s[0..] == s;
    MatchSpelled(Templates[t], d, padDay, s, 0, Unset);
    TemplateFills(t, d);
  }

  // ---- templates that differ only in the kind of month name ----

  /** `g` stands where `f` stands, up to the kind of month name. */
  /** `r` is absent or is `v`. */
  predicate NoneOr<T(==)>(r: Option<T>, v: T) {
    r == None || r == Some(v)
  }

  predicate Alike(f: Field, g: Field) {
    f == g || (f.MonthName? && g.MonthName?)
  }

  predicate SameShape(a: seq<Field>, b: seq<Field>) {
    |a| == |b| && forall k :: 0 <= k < |a| ==> Alike(a[k], b[k])
  }

  /** A directive shaped like `f` reads a spelling of `f` either not at all
      or as `f` does. */
  lemma StepAlike(f: Field, g: Field, d: Date, padDay: bool, s: string, i: nat, j: nat, acc: Slots)
    requires Spellable(d) && Alike(f, g)
    requires j == i + |FieldText(f, d, padDay)| <= |s|
    requires s[i..j] == FieldText(f, d, padDay)
    requires j < |s| ==> StopsBefore(f, s[j])
    ensures NoneOr(StepField(g, s, i, acc), (SetSlot(f, d, acc), j))
  {
    if f == g {
      StepSpelled(f, d, padDay, s, i, j, acc);
    } else {
      MonthField(f, d, padDay, acc);
      StepOtherSpelled(f.full, d.month, g, s, i, j, acc, SetSlot(f, d, acc));
    }
  }

  /** A format shaped like `fmt` reads a spelling of `fmt` either not at all
      or as the same date. */
  lemma {:induction false} MatchAlike(fmt: seq<Field>, other: seq<Field>, d: Date, padDay: bool,
                                      s: string, i: nat, acc: Slots)
    requires Spellable(d) && Separated(fmt) && SameShape(fmt, other)
    requires i <= |s| && s[i..] == Spell(fmt, d, padDay)
    ensures MatchFrom(other, s, i, acc) == None || MatchFrom(other, s, i, acc) == Some(Fill(fmt, d, acc))
    decreases |fmt|
  {
    if fmt != [] {
      var f := fmt[0];
      var j := i + |FieldText(f, d, padDay)|;
      SpellSplit(fmt, d, padDay, s, i, j);
      StepAlike(f, other[0], d, padDay, s, i, j, acc);
      var acc' := SetSlot(f, d, acc);
      assert Fill(fmt, d, acc) == Fill(fmt[1..], d, acc');
      if StepField(other[0], s, i, acc).Some? {
        assert SameShape(fmt[1..], other[1..]);
        MatchAlike(fmt[1..], other[1..], d, padDay, s, j, acc');
        MatchFromStep(other, s, i, acc, acc', j);
      }
    }
  }

  /** A format whose first directive reads `s[i..j]` goes on from `j`. */
  lemma MatchFromStep(fmt: seq<Field>, s: string, i: nat, acc: Slots, acc': Slots, j: nat)
    requires fmt != [] && i <= |s| && StepField(fmt[0], s, i, acc) == Some((acc', j))
    ensures MatchFrom(fmt, s, i, acc) == MatchFrom(fmt[1..], s, j, acc')
  {
  }

  // ---- templates of other shapes fail on a spelling ----

  /** A month name cannot start where there is no letter. */
  lemma NameFirstFails(p: string, t: nat)
    requires t <= 1 && (p == [] || !IsLetter(p[0]))
    ensures TryTemplate(p, t) == None
  {
    assert Templates[t][0] == MonthName(t == 0);
    assert Skip(p, 0, Letter) == 0;
    assert Lower(p[0..0]) == [];
    NoEmptyName(t == 0);
    assert ParseMonthName(p, 0, t == 0) == None;
  }

  /** A day or a year cannot start at a letter. */
  lemma NumberFirstFails(p: string, t: nat)
    requires 2 <= t < |Templates| && p != [] && IsLetter(p[0])
    ensures TryTemplate(p, t) == None
  {
    var T := Templates[t];
    if t <= 3 {
      assert T[0] == DayOfMonth;
      assert ParseDay(p, 0) == None;
    } else {
      assert T[0] == Year4;
      assert |p| >= 4 ==> !IsDigit(p[..4][0]);
      assert ParseYear(p, 0) == None;
    }
  }

  /** A day is at most two digits long and must be followed by a blank. */
  lemma DayFirstFails(p: string, t: nat)
    requires 2 <= t <= 3 && |p| >= 3 && IsDigit(p[0]) && IsDigit(p[1]) && IsDigit(p[2])
    ensures TryTemplate(p, t) == None
  {
    var T := Templates[t];
    assert T[0] == DayOfMonth && T[1] == Blanks;
    match ParseDay(p, 0)
    case None =>
    case Some((v, j)) =>
      assert Skip(p, j, Space) == j;
      assert StepField(T[1], p, j, Unset.(day := v)) == None;
  }

  /** A year is four digits. */
  lemma YearFirstFails(p: string, t: nat)
    requires 4 <= t < |Templates| && (|p| < 4 || !AllDigits(p[..4]))
    ensures TryTemplate(p, t) == None
  {
    assert Templates[t][0] == Year4;
    assert ParseYear(p, 0) == None;
  }

  /** The numeric template wants a hyphen after the year. */
  lemma IsoFails(p: string)
    requires |p| > 4 && p[4] == ' '
    ensures TryTemplate(p, 4) == None
  {
    var T := Templates[4];
    assert T[0] == Year4 && T[1] == Literal('-');
    match ParseYear(p, 0)
    case None =>
    case Some((v, j)) =>
      assert StepField(T[1], p, j, Unset.(year := v)) == None;
  }

  /** The year-first name templates want a blank after the year. */
  lemma YearNameFails(p: string, t: nat)
    requires 5 <= t <= 6 && |p| > 4 && p[4] == '-'
    ensures TryTemplate(p, t) == None
  {
    var T := Templates[t];
    assert T[0] == Year4 && T[1] == Blanks;
    match ParseYear(p, 0)
    case None =>
    case Some((v, j)) =>
      assert Skip(p, j, Space) == j;
      assert StepField(T[1], p, j, Unset.(year := v)) == None;
  }

  // ---- every spelling converts back to its date ----

  /** How a spelling starts, which tells the template shapes apart. */
  lemma SpellingStart(t: nat, d: Date, padDay: bool)
    requires t < |Templates| && Spellable(d)
    ensures var p := Spell(Templates[t], d, padDay);
      && |p| > 4
      && (t <= 1 ==> IsLetter(p[0]))
      && (2 <= t <= 3 ==> IsDigit(p[0]) && !AllDigits(p[..4]))
      && (4 <= t ==> AllDigits(p[..4]) && p[4] == (if t == 4 then '-' else ' '))
  {
    if t <= 1 {
      NameFirstStart(t, d, padDay);
    } else if t <= 3 {
      DayFirstStart(t, d, padDay);
    } else {
      YearFirstStart(t, d, padDay);
    }
  }

  lemma NameFirstStart(t: nat, d: Date, padDay: bool)
    requires t <= 1 && Spellable(d)
    ensures var p := Spell(Templates[t], d, padDay); |p| > 4 && IsLetter(p[0])
  {
    var p := Spell(Templates[t], d, padDay);
    SpellLayout(t, d, padDay);
    LayoutName(t, d, padDay);
    SpelledNameWord(t == 0, d, padDay);
    var (pre, w, post) := Layout(t, d, padDay);
    assert pre == [] && |post| > 4;
    assert p[0] == w[0];
  }

  lemma DayFirstStart(t: nat, d: Date, padDay: bool)
    requires 2 <= t <= 3 && Spellable(d)
    ensures var p := Spell(Templates[t], d, padDay); |p| > 4 && IsDigit(p[0]) && !AllDigits(p[..4])
  {
    var p := Spell(Templates[t], d, padDay);
    SpellLayout(t, d, padDay);
    DayTextDigits(d, padDay);
    var day := FieldText(DayOfMonth, d, padDay);
    var (pre, w, post) := Layout(t, d, padDay);
    assert pre == day + " " && |post| == 5;
    assert p[0] == day[0] && p[|day|] == ' ';
    assert p[..4][|day|] == ' ';
  }

  lemma YearFirstStart(t: nat, d: Date, padDay: bool)
    requires 4 <= t < |Templates| && Spellable(d)
    ensures var p := Spell(Templates[t], d, padDay);
      |p| > 4 && AllDigits(p[..4]) && p[4] == (if t == 4 then '-' else ' ')
  {
    var p := Spell(Templates[t], d, padDay);
    SpellLayout(t, d, padDay);
    var year := Pad(d.year, 4);
    var (pre, w, post) := Layout(t, d, padDay);
    assert |pre| > 4 && pre[..4] == year && pre[4] == (if t == 4 then '-' else ' ');
    assert p[..4] == year && p[4] == pre[4];
  }

  /** Two templates that differ only in the kind of month name. */
  lemma Siblings(t: nat, u: nat)
    requires t < |Templates| && u < |Templates|
    requires (t <= 1 && u <= 1) || (2 <= t <= 3 && 2 <= u <= 3) || (5 <= t && 5 <= u)
    ensures SameShape(Templates[t], Templates[u])
  {
  }

  /** Whatever template reads a spelling of `d`, it reads `d`. */
  lemma SpellingAgrees(t: nat, u: nat, d: Date, padDay: bool)
    requires t < |Templates| && u < |Templates| && Spellable(d)
    ensures TryTemplate(Spell(Templates[t], d, padDay), u) in {None, Some(d)}
  {
    var p := Spell(Templates[t], d, padDay);
    SpellingStart(t, d, padDay);
    if t <= 1 {
      if u >= 2 { NumberFirstFails(p, u); } else { AlikeReads(t, u, d, padDay); }
    } else if t <= 3 {
      if u <= 1 {
        NameFirstFails(p, u);
      } else if u <= 3 {
        AlikeReads(t, u, d, padDay);
      } else {
        YearFirstFails(p, u);
      }
    } else {
      assert IsDigit(p[..4][0]) && IsDigit(p[..4][1]) && IsDigit(p[..4][2]);
      if u <= 1 {
        NameFirstFails(p, u);
      } else if u <= 3 {
        DayFirstFails(p, u);
      } else if u == 4 {
        if t != 4 { IsoFails(p); } else { TemplateReadsOwnSpelling(t, d, padDay); }
      } else if t == 4 {
        YearNameFails(p, u);
      } else {
        AlikeReads(t, u, d, padDay);
      }
    }
  }

  lemma AlikeReads(t: nat, u: nat, d: Date, padDay: bool)
    requires t < |Templates| && u < |Templates| && Spellable(d)
    requires (t <= 1 && u <= 1) || (2 <= t <= 3 && 2 <= u <= 3) || (5 <= t && 5 <= u)
    ensures TryTemplate(Spell(Templates[t], d, padDay), u) in {None, Some(d)}
  {
    var p := Spell(Templates[t], d, padDay);
    Siblings(t, u);
    TemplatesSeparated(t);
    TemplateFills(t, d);
    assert p[0..] == p;
    MatchAlike(Templates[t], Templates[u], d, padDay, p, 0, Unset);
  }

  /** `convert_to_yyyymmdd` reads every spelling of a valid date in any of
      its seven templates, with the day padded or not, as that date. */
  lemma ConvertSpelled(t: nat, d: Date, padDay: bool)
    requires t < |Templates| && ValidDate(d)
    ensures Convert(Spell(Templates[t], d, padDay)) == Ok(Render(d))
  {
    var p := Spell(Templates[t], d, padDay);
    PreprocessSpelled(t, d, padDay);
    TemplateReadsOwnSpelling(t, d, padDay);
    var r := FirstTemplate(p, 0);
    assert r.Some?;
    SpellingAgrees(t, r.value.0, d, padDay);
  }

  /** A day that the month does not have (February 30, April 31) is spelled
      like any other, and every template refuses it: the conversion raises
      a `ValueError` naming the text. */
  lemma ConvertRejectsInvalid(t: nat, d: Date, padDay: bool)
    requires t < |Templates| && Spellable(d) && !ValidDate(d)
    ensures Convert(Spell(Templates[t], d, padDay))
         == Err(ValueError(Unparsed(Spell(Templates[t], d, padDay))))
  {
    var p := Spell(Templates[t], d, padDay);
    PreprocessSpelled(t, d, padDay);
    forall u | 0 <= u < |Templates| ensures TryTemplate(p, u).None? {
      SpellingAgrees(t, u, d, padDay);
    }
  }

  // ---- a month-first date without its comma ----

  /** `%B %d %Y` and `%b %d %Y`: the month-first order with the comma left
      out, which none of the seven templates has. */
  function Commaless(full: bool): seq<Field> {
    [MonthName(full), Blanks, DayOfMonth, Blanks, Year4]
  }

  /** A comma-less spelling: the name, a blank, the day, a blank, the
      year. */
  lemma CommalessLayout(full: bool, d: Date, padDay: bool)
    requires Spellable(d)
    ensures Spell(Commaless(full), d, padDay)
         == FieldText(MonthName(full), d, padDay) + " " + FieldText(DayOfMonth, d, padDay) + " " + Pad(d.year, 4)
  {
    SpellFields(Commaless(full), d, padDay);
  }

  /** The month-first templates read the name, the blanks and the day of a
      comma-less spelling, then miss the comma. */
  lemma CommalessMissesComma(full: bool, t: nat, d: Date, padDay: bool)
    requires t <= 1 && Spellable(d)
    ensures TryTemplate(Spell(Commaless(full), d, padDay), t) == None
  {
    var name := FieldText(MonthName(full), d, false);
    var day := FieldText(DayOfMonth, d, padDay);
    var s := Spell(Commaless(full), d, padDay);
    CommalessLayout(full, d, padDay);
    MissesComma(full, t, d, padDay, s, Pad(d.year, 4));
  }

  lemma MissesComma(full: bool, t: nat, d: Date, padDay: bool, s: string, year: string)
    requires t <= 1 && Spellable(d)
    requires s == FieldText(MonthName(full), d, false) + " " + FieldText(DayOfMonth, d, padDay) + " " + year
    ensures MatchFrom(Templates[t], s, 0, Unset) == None
  {
    var name := FieldText(MonthName(full), d, false);
    var day := FieldText(DayOfMonth, d, padDay);
    var j1 := |name|;
    var j3 := j1 + 1 + |day|;
    assert s[0..j1] == name && s[j1] == ' ';
    assert s[j1 + 1..j3] == day && s[j3] == ' ';
    var T := Templates[t];
    assert T[0] == MonthName(t == 0) && T[1..] == [Blanks, DayOfMonth, Literal(','), Blanks, Year4];
    NameThenBlank(full, t == 0, d, s, j1);
    match StepField(T[0], s, 0, Unset)
    case None =>
    case Some((a1, k1)) =>
      MatchFromStep(T, s, 0, Unset, a1, k1);
      BlankDayThenNoComma(d, padDay, s, j1, j3, a1);
  }

  /** Either kind of month name reads a spelled name followed by a blank
      to its end or not at all. */
  lemma NameThenBlank(full: bool, want: bool, d: Date, s: string, j: nat)
    requires Spellable(d)
    requires j < |s| && j == |FieldText(MonthName(full), d, false)|
    requires s[0..j] == FieldText(MonthName(full), d, false) && s[j] == ' '
    ensures StepField(MonthName(want), s, 0, Unset) == None
         || StepField(MonthName(want), s, 0, Unset) == Some((Unset.(month := d.month), j))
  {
    if want == full {
      StepMonthName(full, d, s, 0, j, Unset);
    } else {
      MonthField(MonthName(full), d, false, Unset);
      StepOtherSpelled(full, d.month, MonthName(want), s, 0, j, Unset, Unset.(month := d.month));
    }
  }

  /** After the name: a blank, the day, then a blank where the comma
      should be. */
  lemma BlankDayThenNoComma(d: Date, padDay: bool, s: string, j1: nat, j3: nat, acc: Slots)
    requires Spellable(d)
    requires j1 < |s| && s[j1] == ' '
    requires j3 == j1 + 1 + |FieldText(DayOfMonth, d, padDay)| && j3 < |s| && s[j3] == ' '
    requires s[j1 + 1..j3] == FieldText(DayOfMonth, d, padDay)
    ensures MatchFrom([Blanks, DayOfMonth, Literal(','), Blanks, Year4], s, j1, acc) == None
  {
    var day := FieldText(DayOfMonth, d, padDay);
    DayTextDigits(d, padDay);
    assert s[j1 + 1] == day[0];
    StepFixed(Blanks, d, padDay, s, j1, j1 + 1, acc);
    StepDay(d, padDay, s, j1 + 1, j3, acc);
    assert [Blanks, DayOfMonth, Literal(','), Blanks, Year4][1..] == [DayOfMonth, Literal(','), Blanks, Year4];
    assert [DayOfMonth, Literal(','), Blanks, Year4][1..] == [Literal(','), Blanks, Year4];
  }

  lemma SpelledNameWord(full: bool, d: Date, padDay: bool)
    requires Spellable(d)
    ensures var name := FieldText(MonthName(full), d, padDay);
      name != [] && AllLetters(name) && Lower(name) != "sept"
  {
    var name := MonthNames(full)[d.month - 1];
    assert IsLowerWord(name) && name != "sept" by {
      MonthNameWellFormed(full, d.month - 1);
    }
    LowerCapitalize(name);
  }

  lemma CommalessRest(d: Date, padDay: bool)
    requires Spellable(d)
    ensures var rest := " " + FieldText(DayOfMonth, d, padDay) + " " + Pad(d.year, 4);
      Plain(rest) && IsDigit(rest[|rest| - 1])
  {
    var day := FieldText(DayOfMonth, d, padDay);
    var year := Pad(d.year, 4);
    DayTextDigits(d, padDay);
    PlainDigits(day);
    PlainDigits(year);
    assert Plain(" ");
    PlainJoin(" ", day);
    PlainJoin(" " + day, " ");
    PlainJoin(" " + day + " ", year);
    assert (" " + day + " " + year)[|" " + day + " " + year| - 1] == year[3];
  }

  /** A comma-less spelling starts with a letter and comes out of
      preprocessing unchanged. */
  lemma CommalessPreprocessed(full: bool, d: Date, padDay: bool)
    requires Spellable(d)
    ensures var s := Spell(Commaless(full), d, padDay);
      s != [] && IsLetter(s[0]) && Preprocess(s) == s
  {
    var s := Spell(Commaless(full), d, padDay);
    var name := FieldText(MonthName(full), d, padDay);
    var rest := " " + FieldText(DayOfMonth, d, padDay) + " " + Pad(d.year, 4);
    CommalessLayout(full, d, padDay);
    JoinAssoc(name, " ", FieldText(DayOfMonth, d, padDay), " ", Pad(d.year, 4));
    SpelledNameWord(full, d, padDay);
    CommalessRest(d, padDay);
    PreprocessWordFirst(name, rest);
  }

  lemma JoinAssoc(a: string, b: string, c: string, d: string, e: string)
    ensures a + b + c + d + e == a + (b + c + d + e)
  {
  }

  lemma PreprocessWordFirst(w: string, rest: string)
    requires w != [] && AllLetters(w) && Lower(w) != "sept"
    requires Plain(rest) && rest != [] && IsDigit(rest[|rest| - 1])
    ensures IsLetter((w + rest)[0]) && Preprocess(w + rest) == w + rest
  {
    var s := w + rest;
    assert s[0] == w[0] && s[|s| - 1] == rest[|rest| - 1];
    assert Preprocess(s) == s by {
      var none: string := [];
      assert none + w == w;
      PreprocessParts(none, w, rest);
    }
  }

  /** A month-first date written without its comma is refused by every
      template: the conversion raises a `ValueError`. */
  lemma ConvertRejectsCommaless(full: bool, d: Date, padDay: bool)
    requires Spellable(d)
    ensures Convert(Spell(Commaless(full), d, padDay))
         == Err(ValueError(Unparsed(Spell(Commaless(full), d, padDay))))
  {
    var s := Spell(Commaless(full), d, padDay);
    CommalessPreprocessed(full, d, padDay);
    forall u | 0 <= u < |Templates| ensures TryTemplate(s, u).None? {
      if u <= 1 {
        CommalessMissesComma(full, u, d, padDay);
      } else {
        NumberFirstFails(s, u);
      }
    }
  }
}
