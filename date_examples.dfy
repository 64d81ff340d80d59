/** `convert_to_yyyymmdd` on the spellings the extractors meet: the
    Voyager launch date, the date of RFC 1149, an ISO date, a date with a
    dotted abbreviation or stray blanks, a date without its comma and a day
    that does not exist. */
module DateExamples {
  import opened Text
  import opened Calendar
  import opened Outcome
  import opened DateNormaliser
  import opened DateSpellings
  import opened DateVariants

  const Voyager := Date(1977, 9, 5)
  const Rfc1149 := Date(1990, 4, 1)
  const NoSuchDay := Date(2001, 2, 30)

  // ---- from a layout to a spelling ----

  lemma SpellsAs(t: nat, d: Date, padDay: bool, a: string, b: string, c: string, text: string)
    requires t < |Templates| && Spellable(d)
    requires Layout(t, d, padDay) == (a, b, c) && a + b + c == text
    ensures Spell(Templates[t], d, padDay) == text
  {
    SpellLayout(t, d, padDay);
  }

  lemma SpellsNameFirst(t: nat, d: Date, padDay: bool, b: string, c: string, text: string)
    requires t < |Templates| && Spellable(d)
    requires Layout(t, d, padDay) == ([], b, c) && b + c == text
    ensures Spell(Templates[t], d, padDay) == text
  {
    var none: string := [];
    EmptyFirst(b, c);
    SpellsAs(t, d, padDay, none, b, c, text);
  }

  lemma EmptyFirst(b: string, c: string)
    ensures [] + b + c == b + c
  {
  }

  lemma EmptyBeforeThree(b: string, c: string, e: string)
    ensures [] + b + c + e == b + c + e
  {
  }

  /** A spelling of a valid date converts to the rendering of that date. */
  lemma Converts(t: nat, d: Date, padDay: bool, text: string, digits: string)
    requires t < |Templates| && ValidDate(d)
    requires Spell(Templates[t], d, padDay) == text && Render(d) == digits
    ensures Convert(text) == Ok(digits)
  {
    ConvertSpelled(t, d, padDay);
  }

  // ---- the pieces of the example dates ----

  lemma Year1977()
    ensures Pad(1977, 4) == "1977"
  {
    assert Pad(1, 1) == "1";
    assert Pad(19, 2) == "19";
    assert Pad(197, 3) == "197";
  }

  lemma Year1990()
    ensures Pad(1990, 4) == "1990"
  {
    assert Pad(1, 1) == "1";
    assert Pad(19, 2) == "19";
    assert Pad(199, 3) == "199";
  }

  lemma Year2001()
    ensures Pad(2001, 4) == "2001"
  {
    assert Pad(2, 1) == "2";
    assert Pad(20, 2) == "20";
    assert Pad(200, 3) == "200";
  }

  lemma VoyagerRendered()
    ensures Render(Voyager) == "19770905"
  {
    Year1977();
    assert Pad(9, 2) == "09" && Pad(5, 2) == "05";
    assert "1977" + "09" + "05" == "19770905";
  }

  lemma Rfc1149Rendered()
    ensures Render(Rfc1149) == "19900401"
  {
    Year1990();
    Rfc1149MonthDay();
    assert "1990" + "04" + "01" == "19900401";
  }

  lemma Rfc1149MonthDay()
    ensures Pad(4, 2) == "04" && Pad(1, 2) == "01"
  {
  }

  lemma VoyagerFields()
    ensures FieldText(MonthName(true), Voyager, false) == "September"
    ensures FieldText(MonthName(false), Voyager, false) == "Sep"
    ensures FieldText(DayOfMonth, Voyager, false) == "5"
  {
    assert MonthNames(true)[8] == "september";
    assert MonthNames(false)[8] == "sep";
  }

  lemma Rfc1149Fields()
    ensures FieldText(MonthName(true), Rfc1149, false) == "April"
    ensures FieldText(DayOfMonth, Rfc1149, false) == "1"
  {
    assert MonthNames(true)[3] == "april";
  }

  lemma NoSuchDayFields()
    ensures Spellable(NoSuchDay) && !ValidDate(NoSuchDay)
    ensures FieldText(MonthName(true), NoSuchDay, false) == "February"
    ensures FieldText(DayOfMonth, NoSuchDay, false) == "30"
  {
    assert MonthNames(true)[1] == "february";
    assert Pad(30, 2) == "30";
  }

  // ---- the Voyager launch date ----

  lemma VoyagerLongLayout()
    ensures Layout(0, Voyager, false) == ("", "September", " 5, 1977")
  {
    VoyagerFields();
    Year1977();
    assert " " + "5" + ", " + "1977" == " 5, 1977";
  }

  lemma VoyagerLongSpelled()
    ensures Spell(Templates[0], Voyager, false) == "September 5, 1977"
  {
    VoyagerLongLayout();
    SpellsNameFirst(0, Voyager, false, "September", " 5, 1977", "September 5, 1977");
  }

  /** "September 5, 1977", the first template. */
  lemma VoyagerLong()
    ensures Convert("September 5, 1977") == Ok("19770905")
  {
    VoyagerLongSpelled();
    VoyagerRendered();
    Converts(0, Voyager, false, "September 5, 1977", "19770905");
  }

  lemma VoyagerAbbrLayout()
    ensures Layout(1, Voyager, false) == ("", "Sep", " 5, 1977")
  {
    VoyagerFields();
    Year1977();
    assert " " + "5" + ", " + "1977" == " 5, 1977";
  }

  lemma VoyagerAbbrSpelled()
    ensures Spell(Templates[1], Voyager, false) == "Sep 5, 1977"
  {
    VoyagerAbbrLayout();
    SpellsNameFirst(1, Voyager, false, "Sep", " 5, 1977", "Sep 5, 1977");
  }

  /** "Sep 5, 1977", the second template. */
  lemma VoyagerAbbr()
    ensures Convert("Sep 5, 1977") == Ok("19770905")
  {
    VoyagerAbbrSpelled();
    VoyagerRendered();
    Converts(1, Voyager, false, "Sep 5, 1977", "19770905");
  }

  lemma VoyagerDayFirstLayout()
    ensures Layout(3, Voyager, false) == ("5 ", "Sep", " 1977")
  {
    VoyagerFields();
    Year1977();
    assert "5" + " " == "5 " && " " + "1977" == " 1977";
  }

  lemma VoyagerDayFirstSpelled()
    ensures Spell(Templates[3], Voyager, false) == "5 Sep 1977"
  {
    VoyagerDayFirstLayout();
    SpellsAs(3, Voyager, false, "5 ", "Sep", " 1977", "5 Sep 1977");
  }

  /** "5 Sep 1977", the fourth template. */
  lemma VoyagerDayFirst()
    ensures Convert("5 Sep 1977") == Ok("19770905")
  {
    VoyagerDayFirstSpelled();
    VoyagerRendered();
    Converts(3, Voyager, false, "5 Sep 1977", "19770905");
  }

  lemma VoyagerIsoLayout()
    ensures Layout(4, Voyager, true) == ("1977-09-05", "", "")
  {
    Year1977();
    assert Pad(9, 2) == "09" && Pad(5, 2) == "05";
    assert FieldText(DayOfMonth, Voyager, true) == "05";
    assert "1977" + "-" + "09" + "-" + "05" == "1977-09-05";
  }

  lemma VoyagerIsoSpelled()
    ensures Spell(Templates[4], Voyager, true) == "1977-09-05"
  {
    VoyagerIsoLayout();
    var none: string := [];
    SpellsAs(4, Voyager, true, "1977-09-05", none, none, "1977-09-05");
  }

  /** "1977-09-05", the fifth template. */
  lemma VoyagerIso()
    ensures Convert("1977-09-05") == Ok("19770905")
  {
    VoyagerIsoSpelled();
    VoyagerRendered();
    Converts(4, Voyager, true, "1977-09-05", "19770905");
  }

  /** "Sept 5, 1977" and "Sept. 5, 1977" give the Voyager date. */
  lemma DottedSept()
    ensures Convert("Sept" + " 5, 1977") == Ok("19770905")
    ensures Convert("Sept" + "." + " 5, 1977") == Ok("19770905")
  {
    var none: string := [];
    assert Convert(none + "Sept" + " 5, 1977") == Ok(Render(Voyager))
      && Convert(none + "Sept" + "." + " 5, 1977") == Ok(Render(Voyager)) by {
      VoyagerAbbrLayout();
      assert Lower("Sept") == "sept";
      ConvertSeptVariants(1, Voyager, false, "Sept");
    }
    EmptyFirst("Sept", " 5, 1977");
    EmptyBeforeThree("Sept", ".", " 5, 1977");
    VoyagerRendered();
  }

  /** "5 SEPT. 1977": an upper-case `Sept` with its dot, day first, gives
      the Voyager date. */
  lemma DayFirstUpperSept()
    ensures Convert("5 " + "SEPT" + "." + " 1977") == Ok("19770905")
  {
    VoyagerDayFirstLayout();
    VoyagerRendered();
    assert Lower("SEPT") == "sept";
    ConvertSeptVariants(3, Voyager, false, "SEPT");
  }

  /** " September 5, 1977. ", with blanks around it and a final dot, gives
      the Voyager date. */
  lemma PaddedLong()
    ensures Convert(" " + "September 5, 1977" + "." + " ") == Ok("19770905")
  {
    VoyagerLongSpelled();
    VoyagerRendered();
    ConvertPadded(0, Voyager, false, " ", " ");
  }

  lemma CommalessSpelled()
    ensures Spell(Commaless(true), Voyager, false) == "September 5 1977"
  {
    CommalessLayout(true, Voyager, false);
    VoyagerFields();
    Year1977();
    assert "September" + " " + "5" + " " + "1977" == "September 5 1977";
  }

  /** "September 5 1977", which the launch pattern accepts since its comma
      is optional: `ValueError`. */
  lemma VoyagerCommaless()
    ensures Convert("September 5 1977") == Err(ValueError(Unparsed("September 5 1977")))
  {
    CommalessSpelled();
    ConvertRejectsCommaless(true, Voyager, false);
  }

  // ---- the date of RFC 1149 ----

  lemma Rfc1149LongLayout()
    ensures Layout(0, Rfc1149, false) == ("", "April", " 1, 1990")
  {
    Rfc1149Fields();
    Year1990();
    assert " " + "1" + ", " + "1990" == " 1, 1990";
  }

  lemma Rfc1149LongSpelled()
    ensures Spell(Templates[0], Rfc1149, false) == "April 1, 1990"
  {
    Rfc1149LongLayout();
    SpellsNameFirst(0, Rfc1149, false, "April", " 1, 1990", "April 1, 1990");
  }

  /** "April 1, 1990", which `rfc1149_date` converts when the info page
      has the literal. */
  lemma Rfc1149Long()
    ensures Convert("April 1, 1990") == Ok("19900401")
  {
    Rfc1149LongSpelled();
    Rfc1149Rendered();
    Converts(0, Rfc1149, false, "April 1, 1990", "19900401");
  }

  lemma Rfc1149DayFirstLayout()
    ensures Layout(2, Rfc1149, false) == ("1 ", "April", " 1990")
  {
    Rfc1149Fields();
    Year1990();
    assert "1" + " " == "1 " && " " + "1990" == " 1990";
  }

  lemma Rfc1149DayFirstSpelled()
    ensures Spell(Templates[2], Rfc1149, false) == "1 April 1990"
  {
    Rfc1149DayFirstLayout();
    SpellsAs(2, Rfc1149, false, "1 ", "April", " 1990", "1 April 1990");
  }

  /** "1 April 1990", as the RFC text writes the date: the same answer as
      the shortcut. */
  lemma Rfc1149DayFirst()
    ensures Convert("1 April 1990") == Ok("19900401")
  {
    Rfc1149DayFirstSpelled();
    Rfc1149Rendered();
    Converts(2, Rfc1149, false, "1 April 1990", "19900401");
  }

  // ---- a day that does not exist ----

  lemma NoSuchDayLayout()
    ensures Layout(0, NoSuchDay, false) == ("", "February", " 30, 2001")
  {
    NoSuchDayFields();
    Year2001();
    assert " " + "30" + ", " + "2001" == " 30, 2001";
  }

  lemma NoSuchDaySpelled()
    ensures Spell(Templates[0], NoSuchDay, false) == "February 30, 2001"
  {
    NoSuchDayFields();
    NoSuchDayLayout();
    SpellsNameFirst(0, NoSuchDay, false, "February", " 30, 2001", "February 30, 2001");
  }

  /** "February 30, 2001" parses field by field but names no day of the
      calendar: `ValueError`. */
  lemma February30()
    ensures Convert("February 30, 2001") == Err(ValueError(Unparsed("February 30, 2001")))
  {
    NoSuchDayFields();
    NoSuchDaySpelled();
    ConvertRejectsInvalid(0, NoSuchDay, false);
  }
}
