/** Character classes and string helpers shared by the extractors.
    Python works on Unicode strings; this model uses the ASCII meaning of
    letters, digits, word characters and case, and Python's full set of
    whitespace characters (what `str.strip()` and `\s` accept). */
module Text {

  predicate IsDigit(c: char) { '0' <= c <= '9' }

  predicate IsLetter(c: char) { 'A' <= c <= 'Z' || 'a' <= c <= 'z' }

  /** A character of `\w`: the side a `\b` boundary looks at. */
  predicate IsWordChar(c: char) { IsLetter(c) || IsDigit(c) || c == '_' }

  predicate IsHexDigit(c: char) { IsDigit(c) || 'A' <= c <= 'F' || 'a' <= c <= 'f' }

  predicate IsUpperHexDigit(c: char) { IsDigit(c) || 'A' <= c <= 'F' }

  /** The characters for which Python's `str.isspace()` holds. */
  predicate IsSpace(c: char) {
    || c == ' '
    || '\t' <= c <= '\r'
    || '\U{1C}' <= c <= '\U{1F}'
    || c == '\U{85}' || c == '\U{A0}' || c == '\U{1680}'
    || '\U{2000}' <= c <= '\U{200A}'
    || c == '\U{2028}' || c == '\U{2029}' || c == '\U{202F}' || c == '\U{205F}' || c == '\U{3000}'
  }

  predicate AllDigits(s: string) { forall i :: 0 <= i < |s| ==> IsDigit(s[i]) }

  predicate NoLetters(s: string) { forall i :: 0 <= i < |s| ==> !IsLetter(s[i]) }

  predicate AllLetters(s: string) { forall i :: 0 <= i < |s| ==> IsLetter(s[i]) }

  function LowerChar(c: char): (r: char)
    ensures IsLetter(c) <==> 'a' <= r <= 'z'
    ensures !('A' <= c <= 'Z') ==> r == c
  {
    if 'A' <= c <= 'Z' then (c as int + 32) as char else c
  }

  function UpperChar(c: char): (r: char)
    ensures IsLetter(c) <==> 'A' <= r <= 'Z'
    ensures !('a' <= c <= 'z') ==> r == c
  {
    if 'a' <= c <= 'z' then (c as int - 32) as char else c
  }

  /** ASCII `str.lower()`. */
  function Lower(s: string): (r: string)
    ensures |r| == |s|
    ensures forall i :: 0 <= i < |s| ==> r[i] == LowerChar(s[i])
  {
    if s == [] then [] else [LowerChar(s[0])] + Lower(s[1..])
  }

  /** ASCII `str.upper()`. */
  function Upper(s: string): (r: string)
    ensures |r| == |s|
    ensures forall i :: 0 <= i < |s| ==> r[i] == UpperChar(s[i])
  {
    if s == [] then [] else [UpperChar(s[0])] + Upper(s[1..])
  }

  /** Python's `sub in s`. */
  predicate Contains(s: string, sub: string) {
    OccursFrom(s, sub, 0)
  }

  /** `sub` stands somewhere at or after position `i` of `s`. */
  predicate OccursFrom(s: string, sub: string, i: nat)
    decreases |s| - i
  {
    OccursAt(s, sub, i) || (i < |s| && OccursFrom(s, sub, i + 1))
  }

  predicate OccursAt(s: string, sub: string, i: int) {
    0 <= i <= |s| - |sub| && s[i..i + |sub|] == sub
  }

  /** An occurrence anywhere makes `sub in s` true. */
  lemma ContainsAt(s: string, sub: string, i: nat)
    requires OccursAt(s, sub, i)
    ensures Contains(s, sub)
  {
    OccursBefore(s, sub, 0, i);
  }

  lemma {:induction false} OccursBefore(s: string, sub: string, j: nat, i: nat)
    requires j <= i && OccursAt(s, sub, i)
    ensures OccursFrom(s, sub, j)
    decreases i - j
  {
    if j < i {
      OccursBefore(s, sub, j + 1, i);
    }
  }

  /** `sub in s` is true only where `sub` occurs. */
  lemma {:induction false} ContainsOnlyAt(s: string, sub: string, j: nat)
    requires OccursFrom(s, sub, j)
    ensures exists i :: j <= i && OccursAt(s, sub, i)
    decreases |s| - j
  {
    if !OccursAt(s, sub, j) {
      ContainsOnlyAt(s, sub, j + 1);
    }
  }

  /** `str.strip()`: drop leading whitespace. */
  function StripStart(s: string): (r: string)
    ensures |r| <= |s| && r == s[|s| - |r|..]
    ensures forall i :: 0 <= i < |s| - |r| ==> IsSpace(s[i])
    ensures r == [] || !IsSpace(r[0])
  {
    if s != [] && IsSpace(s[0]) then StripStart(s[1..]) else s
  }

  /** `str.strip()`: drop trailing whitespace. */
  function StripEnd(s: string): (r: string)
    ensures |r| <= |s| && r == s[..|r|]
    ensures forall i :: |r| <= i < |s| ==> IsSpace(s[i])
    ensures r == [] || !IsSpace(r[|r| - 1])
  {
    if s != [] && IsSpace(s[|s| - 1]) then StripEnd(s[..|s| - 1]) else s
  }

  /** Python's `str.strip()` with no argument: the longest slice of `s`
      that neither starts nor ends with whitespace, with only whitespace
      cut off on either side. */
  function Strip(s: string): (r: string)
    ensures exists a :: StrippedAt(s, r, a)
    ensures r == [] || (!IsSpace(r[0]) && !IsSpace(r[|r| - 1]))
  {
    var t := StripStart(s);
    var r := StripEnd(t);
    assert r == s[|s| - |t|..][..|r|];
    assert StrippedAt(s, r, |s| - |t|);
    r
  }

  /** `r` is the slice of `s` at offset `a` with only whitespace around it. */
  predicate StrippedAt(s: string, r: string, a: int) {
    && 0 <= a <= |s| - |r| && r == s[a..a + |r|]
    && (forall i :: 0 <= i < a ==> IsSpace(s[i]))
    && (forall i :: a + |r| <= i < |s| ==> IsSpace(s[i]))
  }

  lemma StripUnchanged(s: string)
    requires s == [] || (!IsSpace(s[0]) && !IsSpace(s[|s| - 1]))
    ensures Strip(s) == s
  {
  }

  /** Stripping cuts off exactly the whitespace around a text that neither
      starts nor ends with whitespace. */
  lemma StripSurrounded(pre: string, s: string, post: string)
    requires forall i :: 0 <= i < |pre| ==> IsSpace(pre[i])
    requires forall i :: 0 <= i < |post| ==> IsSpace(post[i])
    requires s != [] && !IsSpace(s[0]) && !IsSpace(s[|s| - 1])
    ensures Strip(pre + s + post) == s
  {
    var x := pre + s + post;
    var e := |pre| + |s|;
    SurroundedShape(pre, s, post);
    var r := Strip(x);
    var a :| StrippedAt(x, r, a);
    StrippedBetween(x, r, a, |pre|, e);
    assert r == x[|pre|..e];
  }

  lemma SurroundedShape(pre: string, s: string, post: string)
    requires forall i :: 0 <= i < |pre| ==> IsSpace(pre[i])
    requires forall i :: 0 <= i < |post| ==> IsSpace(post[i])
    requires s != []
    ensures var x := pre + s + post;
      && x[|pre|] == s[0] && x[|pre| + |s| - 1] == s[|s| - 1]
      && (forall i :: 0 <= i < |pre| ==> IsSpace(x[i]))
      && (forall i :: |pre| + |s| <= i < |x| ==> IsSpace(x[i]))
  {
    var x := pre + s + post;
    var e := |pre| + |s|;
    forall i | 0 <= i < |pre| ensures IsSpace(x[i]) {
      assert x[i] == pre[i];
    }
    forall i | e <= i < |x| ensures IsSpace(x[i]) {
      assert x[i] == post[i - e];
    }
  }

  /** Whitespace before `lo` and from `hi` on, none at `lo` or at `hi - 1`:
      the stripped slice is `lo..hi`. */
  lemma StrippedBetween(x: string, r: string, a: int, lo: nat, hi: nat)
    requires StrippedAt(x, r, a) && (r == [] || (!IsSpace(r[0]) && !IsSpace(r[|r| - 1])))
    requires lo < hi <= |x| && !IsSpace(x[lo]) && !IsSpace(x[hi - 1])
    requires forall i :: 0 <= i < lo ==> IsSpace(x[i])
    requires forall i :: hi <= i < |x| ==> IsSpace(x[i])
    ensures a == lo && a + |r| == hi
  {
    assert a <= lo;
    assert r != [];
    assert r[0] == x[a] && r[|r| - 1] == x[a + |r| - 1];
  }

  /** `s.split(sep)[0]`: everything before the first `sep`. */
  function BeforeFirst(s: string, sep: char): (r: string)
    ensures |r| <= |s| && r == s[..|r|]
    ensures forall i :: 0 <= i < |r| ==> s[i] != sep
    ensures |r| == |s| || s[|r|] == sep
  {
    if s == [] || s[0] == sep then [] else [s[0]] + BeforeFirst(s[1..], sep)
  }

  /** The character classes that the hand-written matchers skip over. */
  datatype CharClass = Space | Letter | Digit

  predicate InClass(c: char, k: CharClass) {
    match k
    case Space => IsSpace(c)
    case Letter => IsLetter(c)
    case Digit => IsDigit(c)
  }

  /** The end of the longest run of class `k` starting at `i`: what a greedy
      `\s*`, `[A-Za-z]*` or `\d*` consumes. */
  function Skip(s: string, i: nat, k: CharClass): (j: nat)
    requires i <= |s|
    ensures i <= j <= |s|
    ensures forall m :: i <= m < j ==> InClass(s[m], k)
    ensures j == |s| || !InClass(s[j], k)
    decreases |s| - i
  {
    if i < |s| && InClass(s[i], k) then Skip(s, i + 1, k) else i
  }

  lemma SkipExact(s: string, i: nat, j: nat, k: CharClass)
    requires i <= j <= |s|
    requires forall m :: i <= m < j ==> InClass(s[m], k)
    requires j == |s| || !InClass(s[j], k)
    ensures Skip(s, i, k) == j
  {
  }

  // ---- decimal numbers ----

  function DigitValue(c: char): (v: nat)
    requires IsDigit(c)
    ensures v < 10
  {
    c as int - '0' as int
  }

  function DigitChar(v: nat): (c: char)
    requires v < 10
    ensures IsDigit(c) && DigitValue(c) == v
  {
    ('0' as int + v) as char
  }

  function Pow10(n: nat): (r: nat)
    ensures r >= 1
  {
    if n == 0 then 1 else 10 * Pow10(n - 1)
  }

  /** Python's `int(s)` on a string of ASCII digits. */
  function Number(s: string): (v: nat)
    requires AllDigits(s)
    ensures v < Pow10(|s|)
  {
    if s == [] then 0 else Number(s[..|s| - 1]) * 10 + DigitValue(s[|s| - 1])
  }

  /** `n` written in exactly `width` decimal digits, zero-padded (the
      `%02d` / `%04d` style of `strftime`). */
  function Pad(n: nat, width: nat): (r: string)
    ensures |r| == width && AllDigits(r)
  {
    if width == 0 then [] else Pad(n / 10, width - 1) + [DigitChar(n % 10)]
  }

  /** A number that fits the width reads back from its padded digits: one
      half of the `Pad`/`Number` round trip. */
  lemma {:induction false} NumberPad(n: nat, width: nat)
    requires n < Pow10(width)
    ensures Number(Pad(n, width)) == n
  {
    if width > 0 {
      var r := Pad(n, width);
      var q := n / 10;
      assert Pow10(width) == 10 * Pow10(width - 1);
      assert q * 10 <= n;
      NumberPad(q, width - 1);
      assert r[..|r| - 1] == Pad(q, width - 1);
      assert r[|r| - 1] == DigitChar(n % 10);
      assert Number(r) == q * 10 + n % 10;
    }
  }

  /** Reading a digit string and writing it back at the same width gives it
      back: the other half of the round trip. */
  lemma {:induction false} PadNumber(s: string)
    requires AllDigits(s)
    ensures Pad(Number(s), |s|) == s
  {
    if s != [] {
      var init := s[..|s| - 1];
      var last := s[|s| - 1];
      var n := Number(s);
      PadNumber(init);
      assert n == Number(init) * 10 + DigitValue(last);
      LastDigit(Number(init), DigitValue(last));
      assert Pad(n, |s|) == Pad(Number(init), |init|) + [DigitChar(DigitValue(last))];
      assert s == init + [last];
    }
  }

  lemma LastDigit(a: nat, v: nat)
    requires v < 10
    ensures (a * 10 + v) / 10 == a && (a * 10 + v) % 10 == v
  {
  }
}
