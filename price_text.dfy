/** The textual half of the price normaliser: the rewrites that turn a
    spreadsheet price cell such as "1.180.000 €" or "950,00" into the
    plain decimal text that is later handed to a float parser. */
module PriceText {

  predicate IsDigit(c: char) { '0' <= c <= '9' }

  /** The characters Python's `str.isspace` accepts, which `str.strip` removes. */
  predicate IsSpace(c: char): (r: bool)
    ensures r ==> !IsNumeralChar(c) && c != ',' && c != '€'
    ensures c == ' ' || c == '\t' || c == '\n' ==> r
  {
    || ('\t' <= c <= '\r')
    || ('\U{1c}' <= c <= ' ')
    || c == '\U{85}' || c == '\U{a0}' || c == '\U{1680}'
    || ('\U{2000}' <= c <= '\U{200a}')
    || c == '\U{2028}' || c == '\U{2029}' || c == '\U{202f}' || c == '\U{205f}' || c == '\U{3000}'
  }

  predicate IsNumeralChar(c: char) { IsDigit(c) || c == '.' }

  predicate AllDigits(s: string) { forall i :: 0 <= i < |s| ==> IsDigit(s[i]) }

  /** Text made only of digits and dots, what the final filter leaves. */
  predicate IsNumeral(s: string) { forall i :: 0 <= i < |s| ==> IsNumeralChar(s[i]) }

  lemma DigitsConcat(a: string, b: string)
    requires AllDigits(a) && AllDigits(b)
    ensures AllDigits(a + b)
  {
    forall i | 0 <= i < |a + b| ensures IsDigit((a + b)[i]) {
      if i < |a| { assert (a + b)[i] == a[i]; } else { assert (a + b)[i] == b[i - |a|]; }
    }
  }

  lemma NumeralConcat(a: string, b: string)
    requires IsNumeral(a) && IsNumeral(b)
    ensures IsNumeral(a + b)
  {
    forall i | 0 <= i < |a + b| ensures IsNumeralChar((a + b)[i]) {
      if i < |a| { assert (a + b)[i] == a[i]; } else { assert (a + b)[i] == b[i - |a|]; }
    }
  }

  /** The digits of `s`, in order. */
  function DigitsOf(s: string): (r: string)
    ensures AllDigits(r)
  {
    if s == [] then []
    else if IsDigit(s[0]) then [s[0]] + DigitsOf(s[1..])
    else DigitsOf(s[1..])
  }

  lemma {:induction false} DigitsOfConcat(a: string, b: string)
    ensures DigitsOf(a + b) == DigitsOf(a) + DigitsOf(b)
  {
    if a == [] {
      assert a + b == b;
    } else {
      assert (a + b)[0] == a[0];
      assert (a + b)[1..] == a[1..] + b;
      DigitsOfConcat(a[1..], b);
    }
  }

  /** `s.lstrip()` */
  function StripLeading(s: string): (r: string)
    ensures DigitsOf(r) == DigitsOf(s)
    ensures forall c :: !IsSpace(c) ==> multiset(r)[c] == multiset(s)[c]
    ensures r != [] ==> !IsSpace(r[0])
  {
    if s != [] && IsSpace(s[0]) then
      assert s == [s[0]] + s[1..];
      StripLeading(s[1..])
    else s
  }

  /** `s.rstrip()` */
  function StripTrailing(s: string): (r: string)
    ensures DigitsOf(r) == DigitsOf(s)
    ensures forall c :: !IsSpace(c) ==> multiset(r)[c] == multiset(s)[c]
  {
    if s != [] && IsSpace(s[|s| - 1]) then
      var init := s[..|s| - 1];
      assert s == init + [s[|s| - 1]];
      DigitsOfConcat(init, [s[|s| - 1]]);
      StripTrailing(init)
    else s
  }

  /** `s.strip()`: whitespace removed at both ends. */
  function Strip(s: string): (r: string)
    ensures DigitsOf(r) == DigitsOf(s)
    ensures forall c :: !IsSpace(c) ==> multiset(r)[c] == multiset(s)[c]
  {
    StripTrailing(StripLeading(s))
  }

  /** What `lstrip` leaves is what follows the whitespace at the front, which
      is all that goes. */
  lemma {:induction false} StripLeadingShape(s: string)
    ensures |StripLeading(s)| <= |s|
    ensures StripLeading(s) == s[|s| - |StripLeading(s)|..]
    ensures forall i :: 0 <= i < |s| - |StripLeading(s)| ==> IsSpace(s[i])
  {
    if s != [] && IsSpace(s[0]) {
      var tail := s[1..];
      StripLeadingShape(tail);
      var r := StripLeading(tail);
      assert StripLeading(s) == r;
      assert r == s[|s| - |r|..];
      forall i | 0 <= i < |s| - |r| ensures IsSpace(s[i]) {
        if i > 0 {
          assert s[i] == tail[i - 1];
        }
      }
    }
  }

  /** What `rstrip` leaves is what precedes the whitespace at the end, which
      is all that goes. */
  lemma {:induction false} StripTrailingShape(s: string)
    ensures |StripTrailing(s)| <= |s|
    ensures StripTrailing(s) == s[..|StripTrailing(s)|]
    ensures forall i :: |StripTrailing(s)| <= i < |s| ==> IsSpace(s[i])
    ensures StripTrailing(s) != [] ==> !IsSpace(StripTrailing(s)[|StripTrailing(s)| - 1])
  {
    if s != [] && IsSpace(s[|s| - 1]) {
      var init := s[..|s| - 1];
      StripTrailingShape(init);
      var r := StripTrailing(init);
      assert StripTrailing(s) == r;
      TrailingSpaceStep(s, init, r);
    }
  }

  /** Helper: a prefix followed only by whitespace in `s` minus its last
      character, which is whitespace, is followed only by whitespace in `s`. */
  lemma TrailingSpaceStep(s: string, init: string, r: string)
    requires s != [] && IsSpace(s[|s| - 1]) && init == s[..|s| - 1]
    requires |r| <= |init| && r == init[..|r|]
    requires forall i :: |r| <= i < |init| ==> IsSpace(init[i])
    ensures r == s[..|r|]
    ensures forall i :: |r| <= i < |s| ==> IsSpace(s[i])
  {
    forall i | |r| <= i < |s| ensures IsSpace(s[i]) {
      if i < |init| {
        assert s[i] == init[i];
      }
    }
  }

  /** `r` is `s` between a front and a back made of whitespace, and neither
      end of `r` is whitespace. */
  predicate StripBounds(s: string, r: string)
  {
    exists i :: 0 <= i <= |s| - |r| && r == s[i..][..|r|]
      && (forall x :: 0 <= x < i ==> IsSpace(s[x]))
      && (forall x :: i + |r| <= x < |s| ==> IsSpace(s[x]))
      && (r != [] ==> !IsSpace(r[0]) && !IsSpace(r[|r| - 1]))
  }

  /** `strip` removes the whitespace at both ends and nothing else. */
  lemma StripShape(s: string)
    ensures StripBounds(s, Strip(s))
  {
    var front := StripLeading(s);
    var r := StripTrailing(front);
    StripLeadingShape(s);
    StripTrailingShape(front);
    var i := |s| - |front|;
    assert r == s[i..][..|r|];
    forall x | i + |r| <= x < |s| ensures IsSpace(s[x]) {
      assert s[x] == front[x - i];
    }
    if r != [] {
      assert r[0] == front[0];
    }
  }

  /** `s.replace(c, '')` */
  function RemoveAll(s: string, c: char): (r: string)
    ensures multiset(r)[c] == 0
    ensures forall x :: x != c ==> multiset(r)[x] == multiset(s)[x]
    ensures !IsDigit(c) ==> DigitsOf(r) == DigitsOf(s)
    ensures c !in s ==> r == s
  {
    if s == [] then []
    else
      assert s == [s[0]] + s[1..];
      var rest := RemoveAll(s[1..], c);
      if s[0] == c then rest
      else
        assert ([s[0]] + rest)[1..] == rest;
        [s[0]] + rest
  }

  lemma {:induction false} RemoveAllConcat(a: string, b: string, c: char)
    ensures RemoveAll(a + b, c) == RemoveAll(a, c) + RemoveAll(b, c)
  {
    if a == [] {
      assert a + b == b;
    } else {
      assert (a + b)[0] == a[0];
      assert (a + b)[1..] == a[1..] + b;
      RemoveAllConcat(a[1..], b, c);
    }
  }

  /** `s.replace(c, d)` for two distinct single characters. */
  function ReplaceAll(s: string, c: char, d: char): (r: string)
    requires c != d
    ensures multiset(r)[c] == 0
    ensures multiset(r)[d] == multiset(s)[c] + multiset(s)[d]
    ensures forall x :: x != c && x != d ==> multiset(r)[x] == multiset(s)[x]
    ensures !IsDigit(c) && !IsDigit(d) ==> DigitsOf(r) == DigitsOf(s)
    ensures c !in s ==> r == s
  {
    if s == [] then []
    else
      assert s == [s[0]] + s[1..];
      var rest := ReplaceAll(s[1..], c, d);
      if s[0] == c then
        assert ([d] + rest)[1..] == rest;
        [d] + rest
      else
        assert ([s[0]] + rest)[1..] == rest;
        [s[0]] + rest
  }

  /** `re.sub(r'[^0-9.]', '', s)`: every character other than a digit or a dot dropped. */
  function KeepNumeral(s: string): (r: string)
    ensures IsNumeral(r)
    ensures multiset(r)['.'] == multiset(s)['.']
    ensures DigitsOf(r) == DigitsOf(s)
    ensures IsNumeral(s) ==> r == s
  {
    if s == [] then []
    else
      assert s == [s[0]] + s[1..];
      var rest := KeepNumeral(s[1..]);
      if IsNumeralChar(s[0]) then
        assert ([s[0]] + rest)[1..] == rest;
        [s[0]] + rest
      else rest
  }

  /** The decimal/thousands separator rules. With both separators present the
      dot groups thousands and the comma is the decimal point; several dots and
      no comma are all thousands separators; a lone comma is the decimal point. */
  function ResolveSeparators(s: string): (r: string)
    ensures ',' !in r
    ensures DigitsOf(r) == DigitsOf(s)
    ensures ',' !in s && multiset(s)['.'] <= 1 ==> r == s
  {
    if '.' in s && ',' in s then ReplaceAll(RemoveAll(s, '.'), ',', '.')
    else if multiset(s)['.'] > 1 then
      assert '.' in s && ',' !in s;
      var r := RemoveAll(s, '.');
      assert multiset(r)[','] == multiset(s)[','] == 0;
      r
    else if ',' in s && '.' !in s then ReplaceAll(s, ',', '.')
    else s
  }

  /** Digits with at most one dot pass the separator rules unchanged. */
  lemma FewDotsUnchanged(s: string)
    requires IsNumeral(s) && multiset(s)['.'] <= 1
    ensures ResolveSeparators(s) == s
  {
    assert ',' !in s;
  }

  /** Digits with several dots lose every dot to the separator rules. */
  lemma ManyDotsRemoved(s: string)
    requires IsNumeral(s) && multiset(s)['.'] > 1
    ensures ResolveSeparators(s) == RemoveAll(s, '.')
  {
    assert ',' !in s;
  }

  /** The text after every rewrite, just before the emptiness test. */
  function CanonicalText(raw: string): (r: string)
    ensures IsNumeral(r)
    ensures DigitsOf(r) == DigitsOf(raw)
  {
    KeepNumeral(ResolveSeparators(RemoveAll(RemoveAll(Strip(raw), '€'), ' ')))
  }

  /** Either the text is empty and the price is 0 outright, or a numeral is
      handed to the float parser. */
  datatype CanonicalPrice = ZeroPrice | Numeral(text: string)

  function Canonicalize(raw: string): (r: CanonicalPrice)
    ensures r.Numeral? ==> r.text != [] && IsNumeral(r.text)
  {
    var s := CanonicalText(raw);
    if s == "" then ZeroPrice else Numeral(s)
  }

  /** How text holding a comma reads: its digits in order with every comma
      taken for the decimal point, and everything else dropped. */
  function CommaAsPoint(s: string): (r: string)
    ensures IsNumeral(r)
    ensures AllDigits(s) ==> r == s
  {
    if s == [] then []
    else
      assert s == [s[0]] + s[1..];
      var rest := CommaAsPoint(s[1..]);
      if IsDigit(s[0]) then
        assert ([s[0]] + rest)[1..] == rest;
        [s[0]] + rest
      else if s[0] == ',' then
        assert (['.'] + rest)[1..] == rest;
        ['.'] + rest
      else rest
  }

  lemma {:induction false} KeepNumeralConcat(a: string, b: string)
    ensures KeepNumeral(a + b) == KeepNumeral(a) + KeepNumeral(b)
  {
    if a == [] {
      assert a + b == b;
    } else {
      assert (a + b)[0] == a[0];
      assert (a + b)[1..] == a[1..] + b;
      KeepNumeralConcat(a[1..], b);
    }
  }

  lemma {:induction false} CommaAsPointConcat(a: string, b: string)
    ensures CommaAsPoint(a + b) == CommaAsPoint(a) + CommaAsPoint(b)
  {
    if a == [] {
      assert a + b == b;
    } else {
      assert (a + b)[0] == a[0];
      assert (a + b)[1..] == a[1..] + b;
      CommaAsPointConcat(a[1..], b);
    }
  }

  /** Whitespace is neither a digit, a dot nor a comma, so stripping it at
      the front changes neither reading of the text. */
  lemma {:induction false} StripLeadingReadings(s: string)
    ensures KeepNumeral(StripLeading(s)) == KeepNumeral(s)
    ensures CommaAsPoint(StripLeading(s)) == CommaAsPoint(s)
  {
    if s != [] && IsSpace(s[0]) {
      StripLeadingReadings(s[1..]);
    }
  }

  /** Nor does stripping it at the end. */
  lemma {:induction false} StripTrailingReadings(s: string)
    ensures KeepNumeral(StripTrailing(s)) == KeepNumeral(s)
    ensures CommaAsPoint(StripTrailing(s)) == CommaAsPoint(s)
  {
    if s != [] && IsSpace(s[|s| - 1]) {
      var init := s[..|s| - 1];
      var last := [s[|s| - 1]];
      assert s == init + last;
      KeepNumeralConcat(init, last);
      CommaAsPointConcat(init, last);
      StripTrailingReadings(init);
    }
  }

  lemma StripReadings(s: string)
    ensures KeepNumeral(Strip(s)) == KeepNumeral(s)
    ensures CommaAsPoint(Strip(s)) == CommaAsPoint(s)
  {
    StripLeadingReadings(s);
    StripTrailingReadings(StripLeading(s));
  }

  /** Deleting a character that is neither a digit, a dot nor a comma changes
      neither reading of the text. */
  lemma RemoveAllReadings(s: string, c: char)
    requires !IsNumeralChar(c) && c != ','
    ensures KeepNumeral(RemoveAll(s, c)) == KeepNumeral(s)
    ensures CommaAsPoint(RemoveAll(s, c)) == CommaAsPoint(s)
  {
    RemoveAllKeepsNumeral(s, c);
    RemoveAllKeepsCommaReading(s, c);
  }

  lemma {:induction false} RemoveAllKeepsNumeral(s: string, c: char)
    requires !IsNumeralChar(c)
    ensures KeepNumeral(RemoveAll(s, c)) == KeepNumeral(s)
  {
    if s != [] {
      RemoveAllKeepsNumeral(s[1..], c);
    }
  }

  lemma {:induction false} RemoveAllKeepsCommaReading(s: string, c: char)
    requires !IsDigit(c) && c != ','
    ensures CommaAsPoint(RemoveAll(s, c)) == CommaAsPoint(s)
  {
    if s != [] {
      RemoveAllKeepsCommaReading(s[1..], c);
    }
  }

  /** Deleting the dots, turning the commas into dots and filtering reads the
      text as `CommaAsPoint` does. */
  lemma {:induction false} CommaRewrite(s: string)
    ensures KeepNumeral(ReplaceAll(RemoveAll(s, '.'), ',', '.')) == CommaAsPoint(s)
  {
    if s != [] {
      CommaRewrite(s[1..]);
    }
  }

  /** Deleting the dots and filtering leaves the digits. */
  lemma {:induction false} DotsDroppedReading(s: string)
    ensures KeepNumeral(RemoveAll(s, '.')) == DigitsOf(s)
  {
    if s != [] {
      DotsDroppedReading(s[1..]);
    }
  }

  /** Where the separators end up: with a comma anywhere, the text reads as
      `CommaAsPoint`; with no comma and several dots, only its digits remain;
      with no comma and at most one dot, the plain `[^0-9.]` filter applies. */
  lemma CanonicalForms(raw: string)
    ensures ',' in raw ==> CanonicalText(raw) == CommaAsPoint(raw)
    ensures ',' !in raw && multiset(raw)['.'] > 1 ==> CanonicalText(raw) == DigitsOf(raw)
    ensures ',' !in raw && multiset(raw)['.'] <= 1 ==> CanonicalText(raw) == KeepNumeral(raw)
  {
    var s := Strip(raw);
    var u := RemoveAll(s, '€');
    var t := RemoveAll(u, ' ');
    SeparatorsSurviveCleanup(raw);
    StripReadings(raw);
    RemoveAllReadings(s, '€');
    RemoveAllReadings(u, ' ');
    assert CanonicalText(raw) == KeepNumeral(ResolveSeparators(t));
    assert (',' in raw) == (multiset(raw)[','] > 0);
    assert (',' in t) == (multiset(t)[','] > 0);
    assert ('.' in t) == (multiset(t)['.'] > 0);
    if ',' in raw {
      CommaRewrite(t);
    } else if multiset(raw)['.'] > 1 {
      DotsDroppedReading(t);
    }
  }

  /** Thousands dots with a decimal comma, as in "1.180,50 €": the dots go and
      the comma becomes the decimal point. */
  lemma MixedSeparatorsRead(a: string, b: string, c: string)
    requires AllDigits(a) && AllDigits(b) && AllDigits(c)
    ensures Canonicalize(a + "." + b + "," + c + " €") == Numeral(a + b + "." + c)
  {
    var raw := a + "." + b + "," + c + " €";
    var r := a + b + "." + c;
    MixedReading(a, b, c);
    assert raw[|a| + 1 + |b|] == ',';
    CanonicalForms(raw);
    assert CanonicalText(raw) == r;
    assert r != [];
  }

  lemma MixedReading(a: string, b: string, c: string)
    requires AllDigits(a) && AllDigits(b) && AllDigits(c)
    ensures CommaAsPoint(a + "." + b + "," + c + " €") == a + b + "." + c
  {
    var x1 := a + ".";
    var x2 := x1 + b;
    var x3 := x2 + ",";
    var x4 := x3 + c;
    assert CommaAsPoint(".") == "";
    assert CommaAsPoint(",") == ".";
    assert CommaAsPoint(" €") == "";
    CommaAsPointConcat(a, ".");
    assert CommaAsPoint(x1) == a;
    CommaAsPointConcat(x1, b);
    assert CommaAsPoint(x2) == a + b;
    CommaAsPointConcat(x2, ",");
    assert CommaAsPoint(x3) == a + b + ".";
    CommaAsPointConcat(x3, c);
    assert CommaAsPoint(x4) == a + b + "." + c;
    CommaAsPointConcat(x4, " €");
  }

  /** For text made of digits and dots, deleting the dots leaves its digits. */
  lemma {:induction false} RemoveDotsLeavesDigits(s: string)
    requires IsNumeral(s)
    ensures RemoveAll(s, '.') == DigitsOf(s)
  {
    if s != [] {
      assert forall i :: 0 <= i < |s[1..]| ==> s[1..][i] == s[i + 1];
      RemoveDotsLeavesDigits(s[1..]);
    }
  }

  /** Stripping and dropping the euro sign and spaces keep the digits and both
      separators. */
  lemma SeparatorsSurviveCleanup(raw: string)
    ensures var t := RemoveAll(RemoveAll(Strip(raw), '€'), ' ');
      && DigitsOf(t) == DigitsOf(raw)
      && multiset(t)['.'] == multiset(raw)['.']
      && multiset(t)[','] == multiset(raw)[',']
  {
    assert !IsSpace('.') && !IsSpace(',');
  }

  /** What the rewrites make of any input: only digits and dots remain, the
      digits are those of the input in their order, and the dots that remain
      are the commas when there was a comma, none when there were several dots
      and no comma, and the single dot (if any) otherwise. */
  lemma SeparatorRules(raw: string)
    ensures var r := CanonicalText(raw);
      && IsNumeral(r)
      && RemoveAll(r, '.') == DigitsOf(raw)
      && (',' in raw ==> multiset(r)['.'] == multiset(raw)[','])
      && (',' !in raw && multiset(raw)['.'] > 1 ==> '.' !in r)
      && (',' !in raw && multiset(raw)['.'] <= 1 ==> multiset(r)['.'] == multiset(raw)['.'])
  {
    var t := RemoveAll(RemoveAll(Strip(raw), '€'), ' ');
    SeparatorsSurviveCleanup(raw);
    var r := CanonicalText(raw);
    assert r == KeepNumeral(ResolveSeparators(t));
    RemoveDotsLeavesDigits(r);
    assert (',' in raw) == (multiset(raw)[','] > 0);
    assert (',' in t) == (multiset(t)[','] > 0);
    assert ('.' in t) == (multiset(t)['.'] > 0);
    assert ('.' in r) == (multiset(r)['.'] > 0);
  }

  /** The price is 0 outright exactly when the input has no digit, no comma,
      and not exactly one dot. */
  lemma ZeroPriceIff(raw: string)
    ensures Canonicalize(raw) == ZeroPrice <==>
      DigitsOf(raw) == [] && ',' !in raw && multiset(raw)['.'] != 1
  {
    SeparatorRules(raw);
    var r := CanonicalText(raw);
    if r == [] {
      assert RemoveAll(r, '.') == [];
      assert multiset(r)['.'] == 0;
    } else {
      assert r[0] in r;
      if DigitsOf(raw) == [] {
        assert RemoveAll(r, '.') == [];
        assert multiset(RemoveAll(r, '.'))[r[0]] == 0;
        assert r[0] == '.';
        assert multiset(r)['.'] > 0;
      }
    }
  }

  lemma EuroTailDropped()
    ensures RemoveAll(" €", '€') == " "
    ensures RemoveAll(" ", ' ') == ""
  {
  }

  /** A numeral followed by " €", the form in which prices are displayed, is
      cleaned back to the numeral before the separator rules apply. */
  lemma EuroSuffixCleaned(body: string)
    requires body != [] && IsNumeral(body)
    ensures CanonicalText(body + " €") == KeepNumeral(ResolveSeparators(body))
  {
    var s := body + " €";
    assert s[0] == body[0] && s[|s| - 1] == '€';
    assert Strip(s) == s;
    assert '€' !in body && ' ' !in body;
    EuroTailDropped();
    RemoveAllConcat(body, " €", '€');
    assert RemoveAll(s, '€') == body + " ";
    RemoveAllConcat(body, " ", ' ');
    assert RemoveAll(body + " ", ' ') == body;
  }


  /** Deleting the dots of `a.b.c` leaves `abc`. */
  lemma ThousandsDotsRemoved(a: string, b: string, c: string)
    requires '.' !in a && '.' !in b && '.' !in c
    ensures RemoveAll(a + "." + b + "." + c, '.') == a + b + c
  {
    var x1 := a + ".";
    var x2 := x1 + b;
    var x3 := x2 + ".";
    assert RemoveAll(".", '.') == "";
    RemoveAllConcat(a, ".", '.');
    assert RemoveAll(x1, '.') == a;
    RemoveAllConcat(x1, b, '.');
    assert RemoveAll(x2, '.') == a + b;
    RemoveAllConcat(x2, ".", '.');
    assert RemoveAll(x3, '.') == a + b;
    RemoveAllConcat(x3, c, '.');
  }

  lemma ThousandsText(a: string, b: string, c: string)
    requires AllDigits(a) && AllDigits(b) && AllDigits(c)
    ensures IsNumeral(a + "." + b + "." + c)
    ensures multiset(a + "." + b + "." + c)['.'] == 2
    ensures ',' !in a + "." + b + "." + c
  {
    assert IsNumeral(".");
    NumeralConcat(a, ".");
    NumeralConcat(a + ".", b);
    NumeralConcat(a + "." + b, ".");
    NumeralConcat(a + "." + b + ".", c);
    assert '.' !in a && '.' !in b && '.' !in c && ',' !in a && ',' !in b && ',' !in c;
    assert multiset(a + "." + b + "." + c)[','] == 0;
  }

  /** Price text with two thousands dots and the euro sign, as in "1.180.000 €",
      loses both. */
  lemma ThousandsGroupsJoined(a: string, b: string, c: string)
    requires a != [] && AllDigits(a) && AllDigits(b) && AllDigits(c)
    ensures Canonicalize(a + "." + b + "." + c + " €") == Numeral(a + b + c)
  {
    var body := a + "." + b + "." + c;
    ThousandsText(a, b, c);
    EuroSuffixCleaned(body);
    assert '.' !in a && '.' !in b && '.' !in c;
    ThousandsDotsRemoved(a, b, c);
    assert ResolveSeparators(body) == a + b + c;
    DigitsConcat(a, b);
    DigitsConcat(a + b, c);
    assert IsNumeral(a + b + c);
  }

  lemma DecimalText(a: string, b: string)
    requires a != [] && b != [] && AllDigits(a) && AllDigits(b)
    ensures Strip(a + "," + b) == a + "," + b
    ensures RemoveAll(RemoveAll(a + "," + b, '€'), ' ') == a + "," + b
    ensures ',' in a + "," + b && '.' !in a + "," + b
    ensures IsNumeral(a + "." + b)
  {
    var s := a + "," + b;
    assert s[0] == a[0] && IsDigit(s[0]);
    assert s[|s| - 1] == b[|b| - 1] && IsDigit(s[|s| - 1]);
    assert StripLeading(s) == s;
    assert StripTrailing(s) == s;
    assert s[|a|] == ',';
    NoSeparatorChars(a);
    NoSeparatorChars(b);
    assert multiset(s) == multiset(a) + multiset{','} + multiset(b);
    assert '€' !in s && ' ' !in s && '.' !in s;
    assert RemoveAll(s, '€') == s;
    assert IsNumeral(".");
    NumeralConcat(a, ".");
    NumeralConcat(a + ".", b);
  }

  lemma NoSeparatorChars(a: string)
    requires AllDigits(a)
    ensures multiset(a)['€'] == 0 && multiset(a)[' '] == 0 && multiset(a)['.'] == 0 && multiset(a)[','] == 0
  {
    assert '€' !in a && ' ' !in a && '.' !in a && ',' !in a;
  }

  /** A lone comma between digits, as in "950,00", becomes the decimal point. */
  lemma DecimalCommaRead(a: string, b: string)
    requires a != [] && b != [] && AllDigits(a) && AllDigits(b)
    ensures Canonicalize(a + "," + b) == Numeral(a + "." + b)
  {
    DecimalText(a, b);
    assert ',' !in a && ',' !in b;
    ReplaceAllConcat(a + ",", b, ',', '.');
    ReplaceAllConcat(a, ",", ',', '.');
    assert ReplaceAll(",", ',', '.') == ".";
    assert ResolveSeparators(a + "," + b) == a + "." + b;
  }

  lemma {:induction false} ReplaceAllConcat(a: string, b: string, c: char, d: char)
    requires c != d
    ensures ReplaceAll(a + b, c, d) == ReplaceAll(a, c, d) + ReplaceAll(b, c, d)
  {
    if a == [] {
      assert a + b == b;
    } else {
      assert (a + b)[0] == a[0];
      assert (a + b)[1..] == a[1..] + b;
      ReplaceAllConcat(a[1..], b, c, d);
    }
  }
}
