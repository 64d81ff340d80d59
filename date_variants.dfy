/** The untidy spellings that the preprocessing of `convert_to_yyyymmdd`
    (task-1.py:20-22) is there for: whitespace around the date, a final dot,
    and the `Sept` / `Sept.` / `Sep.` abbreviations of September. Each is
    read as the date its tidy spelling names. */
module DateVariants {
  import opened Text
  import opened Calendar
  import opened Outcome
  import opened DateNormaliser
  import opened DateSpellings

  /** Conversion sees a text only through its preprocessed form. */
  lemma ConvertSamePreprocessed(x: string, y: string)
    requires Preprocess(x) == Preprocess(y)
    ensures Convert(x) == Convert(y)
  {
  }

  /** No spelling has a dot in it. */
  lemma SpellingNoDot(t: nat, d: Date, padDay: bool)
    requires t < |Templates| && Spellable(d)
    ensures var s := Spell(Templates[t], d, padDay); forall k :: 0 <= k < |s| ==> s[k] != '.'
  {
    var (pre, w, post) := Layout(t, d, padDay);
    SpellLayout(t, d, padDay);
    LayoutParts(t, d, padDay);
    PartsNoDot(pre, w, post);
  }

  /** A spelling has no whitespace at either end, no dot, and comes out of
      preprocessing unchanged. */
  lemma SpellingTidy(t: nat, d: Date, padDay: bool)
    requires t < |Templates| && Spellable(d)
    ensures var s := Spell(Templates[t], d, padDay); Tidy(s)
  {
    PreprocessSpelled(t, d, padDay);
    LayoutEnds(t, d, padDay);
    SpellingNoDot(t, d, padDay);
  }

  predicate Tidy(s: string) {
    && s != [] && !IsSpace(s[0]) && !IsSpace(s[|s| - 1])
    && (forall k :: 0 <= k < |s| ==> s[k] != '.')
    && Preprocess(s) == s
  }

  /** The `Sept` rewrite on its own leaves a tidy text as it is. */
  lemma TidyKeepsRewrite(s: string)
    requires Tidy(s)
    ensures RewriteSeptFrom(s, 0) == s
  {
    StripUnchanged(s);
    DropDotsNone(s, 0);
    assert s[0..] == s;
  }

  /** Whitespace around a spelling, with or without a final dot before the
      trailing whitespace, does not change what it converts to. */
  lemma ConvertPadded(t: nat, d: Date, padDay: bool, pre: string, post: string)
    requires t < |Templates| && ValidDate(d)
    requires forall i :: 0 <= i < |pre| ==> IsSpace(pre[i])
    requires forall i :: 0 <= i < |post| ==> IsSpace(post[i])
    ensures var s := Spell(Templates[t], d, padDay);
      Convert(pre + s + post) == Ok(Render(d)) && Convert(pre + s + "." + post) == Ok(Render(d))
  {
    var s := Spell(Templates[t], d, padDay);
    ConvertSpelled(t, d, padDay);
    SpellingTidy(t, d, padDay);
    PaddedTidy(s, pre, post);
    ConvertSamePreprocessed(pre + s + post, s);
    ConvertSamePreprocessed(pre + s + "." + post, s);
  }

  /** Stripping takes off the whitespace around a tidy text, and dot
      removal a dot after it. */
  lemma PaddedTidy(s: string, pre: string, post: string)
    requires Tidy(s)
    requires forall i :: 0 <= i < |pre| ==> IsSpace(pre[i])
    requires forall i :: 0 <= i < |post| ==> IsSpace(post[i])
    ensures Preprocess(pre + s + post) == s
    ensures Preprocess(pre + s + "." + post) == s
  {
    TidyKeepsRewrite(s);
    PaddedPlain(s, pre, post);
    PaddedDot(s, pre, post);
  }

  lemma PaddedPlain(s: string, pre: string, post: string)
    requires s != [] && !IsSpace(s[0]) && !IsSpace(s[|s| - 1])
    requires forall k :: 0 <= k < |s| ==> s[k] != '.'
    requires RewriteSeptFrom(s, 0) == s
    requires forall i :: 0 <= i < |pre| ==> IsSpace(pre[i])
    requires forall i :: 0 <= i < |post| ==> IsSpace(post[i])
    ensures Preprocess(pre + s + post) == s
  {
    StripSurrounded(pre, s, post);
    DropDotsNone(s, 0);
    assert s[0..] == s;
    PreprocessInSteps(pre + s + post, s, s, s);
  }

  lemma PaddedDot(s: string, pre: string, post: string)
    requires s != [] && !IsSpace(s[0])
    requires forall k :: 0 <= k < |s| ==> s[k] != '.'
    requires RewriteSeptFrom(s, 0) == s
    requires forall i :: 0 <= i < |pre| ==> IsSpace(pre[i])
    requires forall i :: 0 <= i < |post| ==> IsSpace(post[i])
    ensures Preprocess(pre + s + "." + post) == s
  {
    DottedStripped(s, pre, post);
    DottedDropped(s);
    ConcatAssoc(pre, s, ".");
    PreprocessInSteps(pre + s + "." + post, s + ".", s, s);
  }

  lemma DottedStripped(s: string, pre: string, post: string)
    requires s != [] && !IsSpace(s[0])
    requires forall i :: 0 <= i < |pre| ==> IsSpace(pre[i])
    requires forall i :: 0 <= i < |post| ==> IsSpace(post[i])
    ensures Strip(pre + (s + ".") + post) == s + "."
  {
    var dotted := s + ".";
    assert dotted[0] == s[0] && dotted[|dotted| - 1] == '.';
    StripSurrounded(pre, dotted, post);
  }

  lemma DottedDropped(s: string)
    requires forall k :: 0 <= k < |s| ==> s[k] != '.'
    ensures DropDotsFrom(s + ".", 0) == s
  {
    var none: string := [];
    DropOneDot(s, none);
    assert s + "." + none == s + "." && s + none == s;
  }

  lemma ConcatAssoc(a: string, b: string, c: string)
    ensures a + b + c == a + (b + c)
  {
  }

  /** The three templates with `%b` spell September as `Sep`, with plain
      text around it: nothing or the day or year and a blank before, a
      blank and digits after. */
  lemma SeptemberLayout(t: nat, d: Date, padDay: bool)
    requires (t == 1 || t == 3 || t == 5) && Spellable(d) && d.month == 9
    ensures var (pre, name, post) := Layout(t, d, padDay);
      && name == "Sep" && Plain(pre) && Plain(post)
      && post != [] && post[0] == ' ' && IsDigit(post[|post| - 1])
      && (pre == [] || (IsDigit(pre[0]) && pre[|pre| - 1] == ' '))
  {
    var (pre, name, post) := Layout(t, d, padDay);
    LayoutPlain(t, d, padDay);
    LayoutLastDigit(t, d, padDay);
    LayoutName(t, d, padDay);
    assert MonthNames(false)[8] == "sep";
    assert name == [UpperChar('s')] + "ep";
    DayTextDigits(d, padDay);
    var day := FieldText(DayOfMonth, d, padDay);
    var year := Pad(d.year, 4);
    if t == 3 {
      assert pre == day + " " && pre[0] == day[0];
    } else if t == 5 {
      assert pre == year + " " && pre[0] == year[0];
    }
  }

  /** `Sept` in any case, or `Sep`, between plain text: preprocessing
      leaves `Sep` there, with or without a dot after the name. */
  lemma PreprocessSeptWord(pre: string, w: string, post: string)
    requires Plain(pre) && Plain(post) && post != [] && post[0] == ' ' && IsDigit(post[|post| - 1])
    requires pre == [] || (IsDigit(pre[0]) && pre[|pre| - 1] == ' ')
    requires Lower(w) == "sept" || w == "Sep"
    ensures Preprocess(pre + w + post) == pre + "Sep" + post
    ensures Preprocess(pre + w + "." + post) == pre + "Sep" + post
  {
    SeptLetters(w);
    PreprocessSeptPlain(pre, w, post);
    PreprocessSeptDotted(pre, w, post);
  }

  lemma {:induction false} PreprocessSeptPlain(pre: string, w: string, post: string)
    requires Plain(pre) && Plain(post) && post != [] && post[0] == ' ' && IsDigit(post[|post| - 1])
    requires pre == [] || (IsDigit(pre[0]) && pre[|pre| - 1] == ' ')
    requires AllLetters(w) && w != [] && (Lower(w) == "sept" || w == "Sep")
    ensures Preprocess(pre + w + post) == pre + "Sep" + post
  {
    SeptRewritten(pre, w, post);
    SeptKeptUndotted(pre, w, post);
    SeptStripped(pre, w, post);
    PreprocessInSteps(pre + w + post, pre + w + post, pre + w + post, pre + "Sep" + post);
  }

  lemma {:induction false} PreprocessSeptDotted(pre: string, w: string, post: string)
    requires Plain(pre) && Plain(post) && post != [] && post[0] == ' ' && IsDigit(post[|post| - 1])
    requires pre == [] || (IsDigit(pre[0]) && pre[|pre| - 1] == ' ')
    requires AllLetters(w) && w != [] && (Lower(w) == "sept" || w == "Sep")
    ensures Preprocess(pre + w + "." + post) == pre + "Sep" + post
  {
    SeptRewritten(pre, w, post);
    SeptDotDropped(pre, w, post);
    SeptDotStripped(pre, w, post);
    PreprocessInSteps(pre + w + "." + post, pre + w + "." + post, pre + w + post, pre + "Sep" + post);
  }

  lemma SeptLetters(w: string)
    requires Lower(w) == "sept" || w == "Sep"
    ensures AllLetters(w) && w != []
  {
    if Lower(w) == "sept" {
      assert forall k :: 0 <= k < |w| ==> 'a' <= Lower(w)[k] <= 'z';
    }
  }

  /** Plain text around a word, with a digit or a letter at the front and a
      digit at the end, is left by stripping. */
  lemma SeptStripped(pre: string, w: string, post: string)
    requires w != [] && IsLetter(w[0]) && post != [] && IsDigit(post[|post| - 1])
    requires pre == [] || IsDigit(pre[0])
    ensures Strip(pre + w + post) == pre + w + post
  {
    var x := pre + w + post;
    assert x[0] == (if pre == [] then w[0] else pre[0]);
    assert x[|x| - 1] == post[|post| - 1];
    StripUnchanged(x);
  }

  lemma SeptDotStripped(pre: string, w: string, post: string)
    requires w != [] && IsLetter(w[0]) && post != [] && IsDigit(post[|post| - 1])
    requires pre == [] || IsDigit(pre[0])
    ensures Strip(pre + w + "." + post) == pre + w + "." + post
  {
    var x := pre + w + "." + post;
    assert x[0] == (if pre == [] then w[0] else pre[0]);
    assert x[|x| - 1] == post[|post| - 1];
    StripUnchanged(x);
  }

  lemma SeptKeptUndotted(pre: string, w: string, post: string)
    requires Plain(pre) && Plain(post) && AllLetters(w)
    ensures DropDotsFrom(pre + w + post, 0) == pre + w + post
  {
    var x := pre + w + post;
    PartsNoDot(pre, w, post);
    DropDotsNone(x, 0);
    assert x[0..] == x;
  }

  lemma SeptDotDropped(pre: string, w: string, post: string)
    requires Plain(pre) && Plain(post) && AllLetters(w) && post != [] && post[0] == ' '
    ensures DropDotsFrom(pre + w + "." + post, 0) == pre + w + post
  {
    var none: string := [];
    PartsNoDot(pre, w, none);
    PartsNoDot(none, none, post);
    assert pre + w + none == pre + w && none + none + post == post;
    DropOneDot(pre + w, post);
  }

  /** The rewrite turns the name into `Sep` and leaves the plain text
      around it. */
  lemma {:induction false} SeptRewritten(pre: string, w: string, post: string)
    requires Plain(pre) && Plain(post) && post != [] && post[0] == ' '
    requires pre == [] || pre[|pre| - 1] == ' '
    requires AllLetters(w) && (Lower(w) == "sept" || w == "Sep")
    ensures RewriteSeptFrom(pre + w + post, 0) == pre + "Sep" + post
  {
    assert NoLetters(pre) && NoLetters(post);
    if Lower(w) == "sept" {
      RewriteSeptWord(pre, w, post);
      RewriteNone(pre, 0);
      RewriteNone(post, 0);
      assert pre[0..] == pre && post[0..] == post;
    } else {
      assert Lower(w) != "sept" by {
        assert |w| != 4;
      }
      NoSeptIn(pre, w, post);
      RewriteNone(pre + w + post, 0);
      assert (pre + w + post)[0..] == pre + w + post;
    }
  }

  /** September written with `Sept` in any case, with or without a dot
      after it, or with `Sep.`, in each of the `%b` templates (`Sept 5,
      1977`, `5 SEPT. 1977`, `1977 sept 5`), is read as that date. */
  lemma {:induction false} ConvertSeptVariants(t: nat, d: Date, padDay: bool, w: string)
    requires (t == 1 || t == 3 || t == 5) && ValidDate(d) && d.month == 9
    requires Lower(w) == "sept"
    ensures var (pre, _, post) := Layout(t, d, padDay);
      && Convert(pre + w + post) == Ok(Render(d))
      && Convert(pre + w + "." + post) == Ok(Render(d))
      && Convert(pre + "Sep" + "." + post) == Ok(Render(d))
  {
    SeptemberLayout(t, d, padDay);
    SpellLayout(t, d, padDay);
    ConvertSeptAround(t, d, padDay, Layout(t, d, padDay).0, w, Layout(t, d, padDay).2);
  }

  lemma {:induction false} ConvertSeptAround(t: nat, d: Date, padDay: bool, pre: string, w: string, post: string)
    requires t < |Templates| && ValidDate(d) && Spell(Templates[t], d, padDay) == pre + "Sep" + post
    requires Plain(pre) && Plain(post) && post != [] && post[0] == ' ' && IsDigit(post[|post| - 1])
    requires pre == [] || (IsDigit(pre[0]) && pre[|pre| - 1] == ' ')
    requires Lower(w) == "sept"
    ensures Convert(pre + w + post) == Ok(Render(d))
    ensures Convert(pre + w + "." + post) == Ok(Render(d))
    ensures Convert(pre + "Sep" + "." + post) == Ok(Render(d))
  {
    PreprocessSeptWord(pre, w, post);
    PreprocessSeptWord(pre, "Sep", post);
    ConvertLikeSpelling(t, d, padDay, pre + w + post);
    ConvertLikeSpelling(t, d, padDay, pre + w + "." + post);
    ConvertLikeSpelling(t, d, padDay, pre + "Sep" + "." + post);
  }

  /** A text that preprocesses to a spelling of a valid date converts to
      that date. */
  lemma ConvertLikeSpelling(t: nat, d: Date, padDay: bool, x: string)
    requires t < |Templates| && ValidDate(d)
    requires Preprocess(x) == Spell(Templates[t], d, padDay)
    ensures Convert(x) == Ok(Render(d))
  {
    ConvertSpelled(t, d, padDay);
    PreprocessSpelled(t, d, padDay);
    ConvertSamePreprocessed(x, Spell(Templates[t], d, padDay));
  }

  /** The three steps of preprocessing, one at a time. */
  lemma PreprocessInSteps(x: string, w: string, y: string, z: string)
    requires Strip(x) == w && DropDotsFrom(w, 0) == y && RewriteSeptFrom(y, 0) == z
    ensures Preprocess(x) == z
  {
  }
}
