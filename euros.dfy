/** Rendering of whole euro amounts with a dot between groups of three
    digits, as in "5.000.000", and how such text reads back. */
module Euros {
  import opened PriceText

  function DigitChar(d: nat): (c: char)
    requires d < 10
    ensures IsDigit(c)
  {
    (('0' as int) + d) as char
  }

  function DigitValue(c: char): (d: nat)
    requires IsDigit(c)
    ensures d < 10 && DigitChar(d) == c
  {
    (c as int) - ('0' as int)
  }

  /** `str(n)`: the decimal digits of `n`, with no leading zero. */
  function DecimalDigits(n: nat): (r: string)
    ensures r != [] && AllDigits(r)
    ensures r[0] == '0' ==> n == 0
    ensures n == 0 ==> r == "0"
  {
    if n < 10 then [DigitChar(n)]
    else
      var init := DecimalDigits(n / 10);
      DigitsConcat(init, [DigitChar(n % 10)]);
      init + [DigitChar(n % 10)]
  }

  /** The number a string of decimal digits denotes. */
  function DigitsValue(s: string): nat
    requires AllDigits(s)
  {
    if s == [] then 0
    else
      assert AllDigits(s[..|s| - 1]);
      10 * DigitsValue(s[..|s| - 1]) + DigitValue(s[|s| - 1])
  }

  lemma {:induction false} DigitsRoundTrip(n: nat)
    ensures DigitsValue(DecimalDigits(n)) == n
  {
    if n >= 10 {
      var init := DecimalDigits(n / 10);
      var s := DecimalDigits(n);
      assert s[..|s| - 1] == init;
      DigitsRoundTrip(n / 10);
    }
  }

  /** The three digits of a group after the first, zero-padded. */
  function Pad3(k: nat): (r: string)
    requires k < 1000
    ensures |r| == 3 && AllDigits(r)
  {
    [DigitChar(k / 100), DigitChar(k / 10 % 10), DigitChar(k % 10)]
  }

  /** `f"{n:,}".replace(",", ".")` for a whole, non-negative amount. */
  function FormatEuros(n: nat): (r: string)
    ensures r != [] && IsDigit(r[0]) && IsNumeral(r)
    ensures r[0] == '0' ==> n == 0
    ensures n == 0 ==> r == "0"
  {
    if n < 1000 then
      DecimalDigits(n)
    else
      var head := FormatEuros(n / 1000);
      assert IsNumeral(".") && IsNumeral(Pad3(n % 1000));
      NumeralConcat(head, ".");
      NumeralConcat(head + ".", Pad3(n % 1000));
      head + "." + Pad3(n % 1000)
  }

  lemma DivTen(q: nat, d: nat)
    requires d < 10
    ensures (10 * q + d) / 10 == q && (10 * q + d) % 10 == d
  {
  }

  /** The digits of `a * 1000 + b` are those of `a` followed by the three
      digits of `b`. */
  lemma DigitsSplit(a: nat, b: nat)
    requires a >= 1 && b < 1000
    ensures DecimalDigits(a * 1000 + b) == DecimalDigits(a) + Pad3(b)
  {
    var n := a * 1000 + b;
    var m1 := a * 100 + b / 10;
    var m2 := a * 10 + b / 100;
    assert n == 10 * m1 + b % 10;
    DivTen(m1, b % 10);
    assert m1 == 10 * m2 + (b / 10) % 10;
    DivTen(m2, (b / 10) % 10);
    DivTen(a, b / 100);
    assert DecimalDigits(m2) == DecimalDigits(a) + [DigitChar(b / 100)];
    assert DecimalDigits(m1) == DecimalDigits(m2) + [DigitChar(b / 10 % 10)];
    assert DecimalDigits(n) == DecimalDigits(m1) + [DigitChar(b % 10)];
  }

  /** Deleting every dot from the rendering gives the plain decimal digits. */
  lemma {:induction false} FormatDropsToDigits(n: nat)
    ensures RemoveAll(FormatEuros(n), '.') == DecimalDigits(n)
  {
    if n >= 1000 {
      FormatDropsToDigits(n / 1000);
      DropStep(n);
    } else {
      ShortHasNoDot(n);
    }
  }

  lemma ShortHasNoDot(n: nat)
    requires n < 1000
    ensures RemoveAll(FormatEuros(n), '.') == DecimalDigits(n)
  {
    assert FormatEuros(n) == DecimalDigits(n);
    assert '.' !in DecimalDigits(n);
  }

  lemma SplitThousand(n: nat)
    ensures n == n / 1000 * 1000 + n % 1000 && n % 1000 < 1000
  {
  }

  lemma DropStep(n: nat)
    requires n >= 1000
    requires RemoveAll(FormatEuros(n / 1000), '.') == DecimalDigits(n / 1000)
    ensures RemoveAll(FormatEuros(n), '.') == DecimalDigits(n)
  {
    var a, b := n / 1000, n % 1000;
    var f := FormatEuros(a);
    assert FormatEuros(n) == f + "." + Pad3(b);
    DropPieces(f, Pad3(b));
    DigitsSplitAt(n);
  }

  lemma DigitsSplitAt(n: nat)
    requires n >= 1000
    ensures DecimalDigits(n) == DecimalDigits(n / 1000) + Pad3(n % 1000)
  {
    var a, b := n / 1000, n % 1000;
    SplitThousand(n);
    assert a * 1000 + b == n;
    DigitsSplit(a, b);
  }

  lemma DropPieces(head: string, tail: string)
    requires '.' !in tail
    ensures RemoveAll(head + "." + tail, '.') == RemoveAll(head, '.') + tail
  {
    var x := head + ".";
    assert RemoveAll(".", '.') == "";
    RemoveAllConcat(head, ".", '.');
    assert RemoveAll(x, '.') == RemoveAll(head, '.');
    RemoveAllConcat(x, tail, '.');
    assert RemoveAll(tail, '.') == tail;
  }

  /** The rendering reads back as the amount it renders. */
  lemma FormatRoundTrip(n: nat)
    ensures AllDigits(RemoveAll(FormatEuros(n), '.'))
    ensures DigitsValue(RemoveAll(FormatEuros(n), '.')) == n
  {
    FormatDropsToDigits(n);
    DigitsRoundTrip(n);
  }

  /** Digit groups separated by single dots: a first group of one to three
      digits, then groups of exactly three. */
  predicate WellGrouped(s: string)
    decreases |s|
  {
    if |s| <= 3 then s != [] && AllDigits(s)
    else |s| >= 5 && s[|s| - 4] == '.' && AllDigits(s[|s| - 3..]) && WellGrouped(s[..|s| - 4])
  }

  lemma ShortDigits(n: nat)
    requires n < 1000
    ensures |DecimalDigits(n)| <= 3
  {
    if n >= 10 {
      if n >= 100 {
        assert n / 10 / 10 < 10;
      }
      assert |DecimalDigits(n / 10)| <= 2;
    }
  }

  lemma {:induction false} FormatGrouping(n: nat)
    ensures WellGrouped(FormatEuros(n))
  {
    if n < 1000 {
      ShortDigits(n);
    } else {
      var head := FormatEuros(n / 1000);
      var s := FormatEuros(n);
      FormatGrouping(n / 1000);
      assert s == head + "." + Pad3(n % 1000);
      assert s[|s| - 4] == '.';
      assert s[|s| - 3..] == Pad3(n % 1000);
      assert s[..|s| - 4] == head;
    }
  }

  /** Each group after the first adds exactly one dot. */
  lemma DotStep(n: nat)
    requires n >= 1000
    ensures multiset(FormatEuros(n))['.'] == multiset(FormatEuros(n / 1000))['.'] + 1
  {
    var head := FormatEuros(n / 1000);
    var tail := Pad3(n % 1000);
    assert FormatEuros(n) == head + "." + tail;
    assert '.' !in tail;
    assert multiset(head + "." + tail) == multiset(head) + multiset{'.'} + multiset(tail);
  }

  /** No dot below a thousand, one dot below a million, two or more from a
      million on. */
  lemma {:induction false} FormatDots(n: nat)
    ensures n < 1000 ==> multiset(FormatEuros(n))['.'] == 0
    ensures 1000 <= n < 1_000_000 ==> multiset(FormatEuros(n))['.'] == 1
    ensures n >= 1_000_000 ==> multiset(FormatEuros(n))['.'] >= 2
  {
    if n < 1000 {
      assert FormatEuros(n) == DecimalDigits(n);
      assert '.' !in DecimalDigits(n);
    } else {
      FormatDots(n / 1000);
      DotStep(n);
    }
  }

  /** An amount of a million or more, displayed as "{format_euros(n)} €",
      canonicalises back to its plain digits. */
  lemma DisplayedMillionsReadBack(n: nat)
    requires n >= 1_000_000
    ensures Canonicalize(FormatEuros(n) + " €") == Numeral(DecimalDigits(n))
  {
    var f := FormatEuros(n);
    EuroSuffixCleaned(f);
    FormatDots(n);
    ManyDotsRemoved(f);
    FormatDropsToDigits(n);
    assert IsNumeral(DecimalDigits(n));
  }

  /** Below a million the displayed text keeps its single dot, if any, which
      the price normaliser then reads as a decimal point. */
  lemma DisplayedThousandsKeepDot(n: nat)
    requires n < 1_000_000
    ensures Canonicalize(FormatEuros(n) + " €") == Numeral(FormatEuros(n))
  {
    var f := FormatEuros(n);
    EuroSuffixCleaned(f);
    FormatDots(n);
    FewDotsUnchanged(f);
    assert KeepNumeral(f) == f;
  }
}
