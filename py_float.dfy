/**
 * Which strings Python's `float(s)` accepts without raising `ValueError`.
 * Only acceptance matters to the pipeline (it drops an `amount` that does not
 * parse); the floating-point value itself is never used.
 *
 * Whitespace is cut from both ends first, but not as `str.strip()` cuts it:
 * CPython turns every non-ASCII whitespace character into a space and then
 * strips only ` \t\n\v\f\r`, so the ASCII separators U+001C to U+001F,
 * which `str.isspace()` accepts, stay and make the text unparseable.
 *
 * Grammar accepted, after that strip:
 *   [sign] ("inf" | "infinity" | "nan")          (any letter case)
 *   [sign] mantissa [exponent]
 *   mantissa  ::= digitpart "." [digitpart] | "." digitpart | digitpart
 *   exponent  ::= ("e" | "E") [sign] digitpart
 *   digitpart ::= digit (["_"] digit)*
 */
module PyFloat {
  import opened PyText

  predicate IsDigit(c: char) {
    '0' <= c <= '9'
  }

  /** Whitespace `float()` cuts from the ends of its argument. */
  predicate IsFloatSpace(c: char) {
    || c == ' ' || ('\t' <= c <= '\r')
    || (c >= '\U{80}' && IsSpace(c))
  }

  /** Neither end of `s` is whitespace in `float()`'s sense. */
  predicate IsFloatStripped(s: string) {
    s == [] || (!IsFloatSpace(s[0]) && !IsFloatSpace(s[|s| - 1]))
  }

  /** Index of the first character at or after `i` that `float()` does not
      cut as leading whitespace (`|s|` when there is none). */
  function FloatSkipSpaces(s: string, i: nat): (k: nat)
    requires i <= |s|
    ensures i <= k <= |s|
    ensures forall j :: i <= j < k ==> IsFloatSpace(s[j])
    ensures k < |s| ==> !IsFloatSpace(s[k])
    decreases |s| - i
  {
    if i < |s| && IsFloatSpace(s[i]) then FloatSkipSpaces(s, i + 1) else i
  }

  /** End of `s[lo..hi]` once `float()`'s trailing whitespace is cut off. */
  function FloatTrimEnd(s: string, lo: nat, hi: nat): (k: nat)
    requires lo <= hi <= |s|
    ensures lo <= k <= hi
    ensures forall j :: k <= j < hi ==> IsFloatSpace(s[j])
    ensures k > lo ==> !IsFloatSpace(s[k - 1])
    decreases hi
  {
    if hi > lo && IsFloatSpace(s[hi - 1]) then FloatTrimEnd(s, lo, hi - 1) else hi
  }

  /** Where the text `float()` parses begins in `s`. */
  function FloatStripStart(s: string): (n: nat)
    ensures n <= |s|
  {
    FloatSkipSpaces(s, 0)
  }

  /** The piece of `s` that `float()` parses, once its whitespace is cut from
      both ends. */
  function FloatStrip(s: string): (r: string)
    ensures IsFloatStripped(r)
    ensures FloatStripStart(s) + |r| <= |s| && r == s[FloatStripStart(s)..FloatStripStart(s) + |r|]
    // only `float()`-whitespace is cut, at either end
    ensures forall j :: 0 <= j < FloatStripStart(s) ==> IsFloatSpace(s[j])
    ensures forall j :: FloatStripStart(s) + |r| <= j < |s| ==> IsFloatSpace(s[j])
    ensures r == [] <==> forall i :: 0 <= i < |s| ==> IsFloatSpace(s[i])
    ensures IsFloatStripped(s) ==> r == s
  {
    var a := FloatStripStart(s);
    var b := FloatTrimEnd(s, a, |s|);
    assert b > a ==> a < |s|;
    assert IsFloatStripped(s) && s != [] ==> a == 0 && b == |s|;
    s[a..b]
  }

  /** `float()` cuts less than `str.strip()` does. */
  lemma FloatSpaceIsSpace(c: char)
    ensures IsFloatSpace(c) ==> IsSpace(c)
    ensures IsSpace(c) && !('\U{1C}' <= c <= '\U{1F}') ==> IsFloatSpace(c)
  {
  }

  /** digitpart: digits, with single underscores allowed between two digits. */
  predicate IsDigitPart(s: string) {
    && |s| > 0 && IsDigit(s[0]) && IsDigit(s[|s| - 1])
    && (forall i :: 0 <= i < |s| ==> IsDigit(s[i]) || s[i] == '_')
    && (forall i :: 0 <= i < |s| - 1 && s[i] == '_' ==> s[i + 1] != '_')
  }

  /** Drops one leading `+` or `-`. */
  function DropSign(s: string): (r: string)
    ensures r == s || (|s| > 0 && (s[0] == '+' || s[0] == '-') && r == s[1..])
  {
    if |s| > 0 && (s[0] == '+' || s[0] == '-') then s[1..] else s
  }

  predicate IsExponent(x: string) {
    |x| >= 1 && (x[0] == 'e' || x[0] == 'E') && IsDigitPart(DropSign(x[1..]))
  }

  predicate IsMantissa(m: string) {
    match FirstIndex(m, '.')
    case None => IsDigitPart(m)
    case Some(d) =>
      var whole, frac := m[..d], m[d + 1..];
      || (IsDigitPart(whole) && (frac == "" || IsDigitPart(frac)))
      || (whole == "" && IsDigitPart(frac))
  }

  /** An unsigned decimal literal; a mantissa holds no `e`, so the exponent
      starts at the first `e` or `E`. */
  predicate IsDecimalLiteral(u: string) {
    match FirstIndex(Lower(u), 'e')
    case None => IsMantissa(u)
    case Some(e) => IsMantissa(u[..e]) && IsExponent(u[e..])
  }

  predicate IsSpecialValue(u: string) {
    var l := Lower(u);
    l == "inf" || l == "infinity" || l == "nan"
  }

  /** `float(s)` returns instead of raising `ValueError`. */
  predicate ParsesAsFloat(s: string) {
    var u := DropSign(FloatStrip(s));
    IsSpecialValue(u) || IsDecimalLiteral(u)
  }

  /** An unsigned run of ASCII digits always parses. */
  lemma DigitsParse(s: string)
    requires |s| > 0 && forall i :: 0 <= i < |s| ==> IsDigit(s[i])
    ensures ParsesAsFloat(s)
  {
    DigitsAreCore(s);
    DigitsAreLiteral(s);
  }

  /** A run of digits has nothing for `strip` or the sign to remove. */
  lemma DigitsAreCore(s: string)
    requires |s| > 0 && forall i :: 0 <= i < |s| ==> IsDigit(s[i])
    ensures DropSign(FloatStrip(s)) == s
  {
    assert IsFloatStripped(s) by {
      assert IsDigit(s[0]) && IsDigit(s[|s| - 1]);
    }
    assert FloatStrip(s) == s;
    assert !(s[0] == '+' || s[0] == '-');
  }

  /** A run of digits is a decimal literal without point or exponent. */
  lemma DigitsAreLiteral(s: string)
    requires |s| > 0 && forall i :: 0 <= i < |s| ==> IsDigit(s[i])
    ensures IsDecimalLiteral(s)
  {
    assert IsDigitPart(s);
    assert FirstIndex(s, '.').None?;
    var l := Lower(s);
    assert forall i :: 0 <= i < |l| ==> l[i] == s[i];
    assert FirstIndex(l, 'e').None?;
  }

  /** Every character of the text `float` inspects comes from `s`. */
  lemma CoreComesFromInput(s: string, k: nat)
    requires k < |DropSign(FloatStrip(s))|
    ensures DropSign(FloatStrip(s))[k] in s
  {
    var t := FloatStrip(s);
    var a := FloatStripStart(s);
    var j: nat := if |t| > 0 && (t[0] == '+' || t[0] == '-') then k + 1 else k;
    assert DropSign(t)[k] == t[j];
    assert t[j] == s[a + j];
  }

  /** A string without a digit is accepted only when it spells one of the
      special values. */
  lemma NoDigitNoNumber(s: string)
    requires forall i :: 0 <= i < |s| ==> !IsDigit(s[i])
    ensures !IsDecimalLiteral(DropSign(FloatStrip(s)))
    ensures ParsesAsFloat(s) ==> IsSpecialValue(DropSign(FloatStrip(s)))
  {
    var u := DropSign(FloatStrip(s));
    if IsDecimalLiteral(u) {
      var m := match FirstIndex(Lower(u), 'e') case None => u case Some(e) => u[..e];
      assert IsMantissa(m);
      var k: nat := match FirstIndex(m, '.') case None => 0 case Some(d) => if IsDigitPart(m[..d]) then 0 else d + 1;
      assert k < |m| && IsDigit(m[k]);
      assert m[k] == u[k];
      CoreComesFromInput(s, k);
      assert false;
    }
  }

  /** A stripped, unsigned string is inspected as it is. */
  lemma CoreOfPlainText(s: string)
    requires IsFloatStripped(s) && (s == [] || (s[0] != '+' && s[0] != '-'))
    ensures DropSign(FloatStrip(s)) == s
  {
  }

  /** A stripped, unsigned word without digits whose length rules out the
      special values does not parse. */
  lemma WordIsNotANumber(s: string)
    requires forall i :: 0 <= i < |s| ==> !IsDigit(s[i])
    requires IsFloatStripped(s) && (s == [] || (s[0] != '+' && s[0] != '-'))
    requires |s| != 3 && |s| != 8
    ensures !ParsesAsFloat(s)
  {
    NoDigitNoNumber(s);
    CoreOfPlainText(s);
    assert !IsDecimalLiteral(s);
    assert !IsSpecialValue(s) by {
      assert |Lower(s)| == |s|;
    }
  }

  lemma NotFoundIsNotANumber(s: string)
    requires s == "Not Found"
    ensures !ParsesAsFloat(s)
  {
    assert forall i :: 0 <= i < |s| ==> !IsDigit(s[i]);
    assert s[0] == 'N' && s[|s| - 1] == 'd';
    WordIsNotANumber(s);
  }

  /** The characters a decimal literal can be written with. */
  predicate InLiteralAlphabet(c: char) {
    IsDigit(c) || c == '_' || c == '.' || c == 'e' || c == 'E' || c == '+' || c == '-'
  }

  lemma DigitPartAlphabet(s: string)
    requires IsDigitPart(s)
    ensures forall i :: 0 <= i < |s| ==> InLiteralAlphabet(s[i])
  {
  }

  lemma MantissaAlphabet(m: string)
    requires IsMantissa(m)
    ensures forall i :: 0 <= i < |m| ==> InLiteralAlphabet(m[i])
  {
    match FirstIndex(m, '.')
    case None => DigitPartAlphabet(m);
    case Some(d) =>
      var whole, frac := m[..d], m[d + 1..];
      if whole != "" { DigitPartAlphabet(whole); }
      if frac != "" { DigitPartAlphabet(frac); }
      forall i | 0 <= i < |m| ensures InLiteralAlphabet(m[i]) {
        if i < d { assert m[i] == whole[i]; }
        else if i > d { assert m[i] == frac[i - d - 1]; }
      }
  }

  /** A decimal literal is written only with digits, `_`, `.`, `e`, `E`,
      `+` and `-`. */
  lemma DecimalLiteralAlphabet(u: string)
    requires IsDecimalLiteral(u)
    ensures forall i :: 0 <= i < |u| ==> InLiteralAlphabet(u[i])
  {
    match FirstIndex(Lower(u), 'e')
    case None => MantissaAlphabet(u);
    case Some(e) =>
      var m, x := u[..e], u[e..];
      MantissaAlphabet(m);
      var y := DropSign(x[1..]);
      DigitPartAlphabet(y);
      forall i | 0 <= i < |u| ensures InLiteralAlphabet(u[i]) {
        if i < e { assert u[i] == m[i]; }
        else if i > e && y != x[1..] && i == e + 1 { assert u[i] == x[1]; }
        else if i > e && y != x[1..] { assert u[i] == y[i - e - 2]; }
        else if i > e { assert u[i] == y[i - e - 1]; }
      }
  }

  /** A stripped, unsigned string holding a character no decimal literal
      uses, and whose length rules out the special values, does not parse. */
  lemma ForeignCharIsNotANumber(s: string, k: nat)
    requires k < |s| && !InLiteralAlphabet(s[k])
    requires IsFloatStripped(s) && s[0] != '+' && s[0] != '-'
    requires |s| != 3 && |s| != 8
    ensures !ParsesAsFloat(s)
  {
    CoreOfPlainText(s);
    assert !IsDecimalLiteral(s) by {
      if IsDecimalLiteral(s) {
        DecimalLiteralAlphabet(s);
        assert false;
      }
    }
    assert !IsSpecialValue(s) by {
      assert |Lower(s)| == |s|;
    }
  }

  /** The example from the extraction prompt, once `,` and `$` are gone:
      the currency code keeps it from parsing. */
  lemma CurrencySuffixIsNotANumber(s: string)
    requires s == "15000000 CAD"
    ensures !ParsesAsFloat(s)
  {
    assert s[0] == '1' && s[|s| - 1] == 'D' && s[9] == 'C';
    ForeignCharIsNotANumber(s, 9);
  }

  /** An ASCII information separator after the digits is not cut, so the
      text does not parse, although `str.strip()` would remove it. */
  lemma TrailingSeparatorIsNotANumber(s: string)
    requires s == "5\U{1F}"
    ensures !ParsesAsFloat(s)
    ensures Strip(s) == "5"
  {
    assert s[0] == '5' && s[1] == '\U{1F}';
    ForeignCharIsNotANumber(s, 1);
    assert IsSpace(s[1]) && !IsSpace(s[0]);
    assert StripStart(s) == 0;
  }

  /** A no-break space after the digits is cut, so the text parses. */
  lemma TrailingNoBreakSpaceIsCut(s: string)
    requires s == "5\U{A0}"
    ensures FloatStrip(s) == "5"
    ensures ParsesAsFloat(s)
  {
    assert s[0] == '5' && s[1] == '\U{A0}';
    assert FloatStripStart(s) == 0;
    assert FloatTrimEnd(s, 0, 2) == 1;
    assert FloatStrip(s) == s[0..1];
    DigitsParse(s[0..1]);
    assert ParsesAsFloat(s[0..1]);
    DigitsAreCore(s[0..1]);
  }
}
