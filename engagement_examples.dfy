/** Worked examples of `clean_engagement_count`: the two values its doc comment quotes, and the
    edge cases of case, padding, truncation, the zero fall-back and the uncaught errors. */
module EngagementExamples {
  import opened PyStr
  import opened ConvertToCsv


  lemma ThousandsExample(s: string, i: int)
    requires s == ShowInt(i) + "k" || s == ShowInt(i) + "K"
    ensures CleanEngagementCount(Str(s)) == Number(i * 1000)
  {
    ThousandsRoundTrip(i);
  }

  lemma DecimalExample(s: string, neg: bool, a: nat, f: string, x: char, factor: nat)
    requires f != [] && AllDigits(f) && s == FractionNumeral(neg, a, f) + [x]
    requires ((x == 'k' || x == 'K') && factor == 1000) || ((x == 'm' || x == 'M') && factor == 1000000)
    ensures CleanEngagementCount(Str(s)) == Number(TruncDiv(FractionUnits(neg, a, f) * factor, Pow10(|f|)))
  {
    if x == 'k' || x == 'K' {
      DecimalThousands(neg, a, f, x);
    } else {
      DecimalMillions(neg, a, f, x);
    }
  }

  /** The first example of the doc comment: `16K` is 16000. */
  lemma SixteenThousand()
    ensures CleanEngagementCount(Str("16K")) == Number(16000)
  {
    assert ShowInt(16) + "K" == "16K";
    ThousandsExample("16K", 16);
  }

  /** The second example of the doc comment: `1.2M` is 1200000. */
  lemma OnePointTwoMillion()
    ensures CleanEngagementCount(Str("1.2M")) == Number(1200000)
  {
    assert FractionNumeral(false, 1, "2") + ['M'] == "1.2M";
    assert FractionUnits(false, 1, "2") == 12;
    assert TruncDiv(12 * 1000000, Pow10(1)) == 1200000;
    DecimalExample("1.2M", false, 1, "2", 'M', 1000000);
  }

  /** `int(float(...))` truncates toward zero: 1.2345 thousand is 1234, not 1235. */
  lemma TruncatesPositive()
    ensures CleanEngagementCount(Str("1.2345k")) == Number(1234)
  {
    assert FractionNumeral(false, 1, "2345") + ['k'] == "1.2345k";
    assert "2345"[..3] == "234" && "234"[..2] == "23" && "23"[..1] == "2" && "2"[..0] == "";
    assert DigitsValue("2345") == 2345;
    assert Pow10(4) == 10000;
    assert FractionUnits(false, 1, "2345") == 12345;
    assert TruncDiv(12345 * 1000, Pow10(4)) == 1234;
    DecimalExample("1.2345k", false, 1, "2345", 'k', 1000);
  }

  /** Toward zero, not down: -0.0005 thousand is 0, where rounding down would give -1. */
  lemma TruncatesNegative()
    ensures CleanEngagementCount(Str("-0.0005k")) == Number(0)
  {
    assert FractionNumeral(true, 0, "0005") + ['k'] == "-0.0005k";
    assert "0005"[..3] == "000" && "000"[..2] == "00" && "00"[..1] == "0" && "0"[..0] == "";
    assert DigitsValue("0005") == 5;
    assert Pow10(4) == 10000;
    assert FractionUnits(true, 0, "0005") == -5;
    assert TruncDiv(-5 * 1000, Pow10(4)) == 0;
    DecimalExample("-0.0005k", true, 0, "0005", 'k', 1000);
  }

  /** Lower-casing a blank-padded numeral with a suffix letter touches the letter only. */
  lemma LowerPadded(r: string, x: char)
    requires Numeral(r) && (x == 'k' || x == 'K')
    ensures Lower([' '] + r + [x] + [' ']) == [' '] + r + ['k'] + [' ']
  {
    var padded := [' '] + r + [x] + [' '];
    var e := [' '] + r + ['k'] + [' '];
    var l := Lower(padded);
    forall k | 0 <= k < |l| ensures l[k] == e[k] {
      if 1 <= k <= |r| {
        assert padded[k] == r[k - 1] && e[k] == r[k - 1];
      }
    }
  }

  /** A blank-padded numeral with `k` or `K` normalises to the numeral and `k`. */
  lemma NormalisePadded(r: string, x: char)
    requires r != [] && Numeral(r) && (x == 'k' || x == 'K')
    ensures Normalise([' '] + r + [x] + [' ']) == r + ['k']
  {
    LowerPadded(r, x);
    var w := r + ['k'];
    assert NotSpace(w[0]) by {
      assert w[0] == r[0];
    }
    assert [' '] + r + ['k'] + [' '] == [' '] + w + [' '];
    PaddedStrip(w);
  }

  /** Surrounding blanks and case do not matter: `" <i>k "` and `" <i>K "` read as `i` thousand. */
  lemma PaddedLowerCase(i: int, x: char)
    requires x == 'k' || x == 'K'
    ensures CleanEngagementCount(Str([' '] + ShowInt(i) + [x] + [' '])) == Number(i * 1000)
  {
    var r := ShowInt(i);
    ShowIntShape(i);
    NormalisePadded(r, x);
    WithSuffix(r, x, 'k');
    SameNormalForm([' '] + r + [x] + [' '], r + [x]);
    ThousandsRoundTrip(i);
  }

  /** One blank on either side of a word is stripped. */
  lemma PaddedStrip(w: string)
    requires w != [] && NotSpace(w[0]) && NotSpace(w[|w| - 1])
    ensures Strip([' '] + w + [' ']) == w
  {
    var s := [' '] + w + [' '];
    assert s[1..] == w + [' '];
    assert LStrip(w + [' ']) == w + [' '];
    assert LStrip(s) == w + [' '];
    assert (w + [' '])[..|w|] == w;
    assert RStrip(w) == w;
  }

  /** `[-]<a>.<f>` has its decimal point. */
  lemma FractionHasPoint(neg: bool, a: nat, f: string)
    ensures '.' in FractionNumeral(neg, a, f)
  {
    var p := (if neg then "-" else "") + ShowNat(a);
    var r := FractionNumeral(neg, a, f);
    assert r == p + "." + f;
    assert r[|p|] == '.';
  }

  /** A decimal without a suffix is no integer literal: `1.5` and the like give 0. */
  lemma DecimalWithoutSuffixIsZero(neg: bool, a: nat, f: string)
    requires f != [] && AllDigits(f)
    ensures CleanEngagementCount(Str(FractionNumeral(neg, a, f))) == Number(0)
  {
    var r := FractionNumeral(neg, a, f);
    FractionNumeralIsNumeral(neg, a, f);
    assert r != [] by {
      FractionHasPoint(neg, a, f);
    }
    NumeralNormal(r);
    NumeralMarks(r);
    FractionHasPoint(neg, a, f);
    NotIntegerLiteral(r);
  }

  predicate DigitsAndCommas(s: string) {
    forall k :: 0 <= k < |s| ==> IsDigit(s[k]) || s[k] == ','
  }

  lemma DigitsAndCommasStripped(s: string)
    requires s != [] && DigitsAndCommas(s)
    ensures Strip(s) == s
  {
    assert NotSpace(s[0]) && NotSpace(s[|s| - 1]);
    StripIdentity(s);
  }

  lemma DigitsAndCommasLower(s: string)
    requires DigitsAndCommas(s)
    ensures Lower(s) == s
  {
    LowerIdentity(s);
  }

  /** Digits and commas are left alone by normalising and hold no suffix letter. */
  lemma DigitsAndCommasNormal(s: string)
    requires s != [] && DigitsAndCommas(s)
    ensures Normalise(s) == s && 'k' !in s && 'm' !in s
  {
    DigitsAndCommasLower(s);
    DigitsAndCommasStripped(s);
    NormalFixed(s);
    DigitsAndCommasNoMarks(s);
  }

  lemma DigitsAndCommasNoMarks(s: string)
    requires DigitsAndCommas(s)
    ensures 'k' !in s && 'm' !in s
  {
  }

  /** Digits, a comma and digits make a string of digits and commas with a comma in it. */
  lemma CommaNumeralShape(a: string, b: string)
    requires AllDigits(a) && AllDigits(b)
    ensures DigitsAndCommas(a + [','] + b) && ',' in a + [','] + b
  {
    var s := a + [','] + b;
    forall k | 0 <= k < |s| ensures IsDigit(s[k]) || s[k] == ',' {
      if k < |a| {
        assert s[k] == a[k];
      } else if k > |a| {
        assert s[k] == b[k - |a| - 1];
      }
    }
    assert s[|a|] == ',';
  }

  /** A thousands separator is not understood: `1,234` and the like give 0. */
  lemma CommaIsZero(a: string, b: string)
    requires a != [] && AllDigits(a) && b != [] && AllDigits(b)
    ensures CleanEngagementCount(Str(a + [','] + b)) == Number(0)
  {
    var s := a + [','] + b;
    CommaNumeralShape(a, b);
    DigitsAndCommasNormal(s);
    NotIntegerLiteral(s);
  }

  /** The empty string and a missing value give 0. */
  lemma EmptyIsZero()
    ensures CleanEngagementCount(Str("")) == Number(0)
    ensures CleanEngagementCount(NoneValue) == Number(0)
  {
    NotIntegerLiteral("");
  }

  lemma BareSuffixNormal(x: char)
    requires x == 'k' || x == 'K'
    ensures Normalise([x]) == [] + ['k']
  {
    LowerSuffix(x);
    StripIdentity(['k']);
  }

  lemma LowerSuffix(x: char)
    requires x == 'k' || x == 'K'
    ensures Lower([x]) == ['k']
  {
    assert Lower([x])[0] == 'k';
  }

  /** The empty string is no `float()` literal. */
  lemma EmptyNotFloat()
    ensures ParseFloat([]).None?
  {
    SplitNoSeparator([], '.');
    assert ParseUnsigned([]).None?;
  }

  /** A string whose normal form is a lone `k` raises. */
  lemma OnlySuffixRaises(s: string)
    requires Normalise(s) == [] + ['k']
    ensures CleanEngagementCount(Str(s)) == ValueError
  {
    EmptyNotFloat();
    ThousandsError(s, []);
  }

  /** A bare `k` or `K` is no number: the call raises. */
  lemma BareSuffixRaises(x: char)
    requires x == 'k' || x == 'K'
    ensures CleanEngagementCount(Str([x])) == ValueError
  {
    BareSuffixNormal(x);
    OnlySuffixRaises([x]);
  }

  /** Without a `.`, only a string of digits is an unsigned `float()` literal. */
  lemma UnsignedWithoutPoint(t: string)
    requires '.' !in t && !AllDigits(t)
    ensures ParseUnsigned(t).None?
  {
    SplitNoSeparator(t, '.');
  }

  /** A stripped string without a sign whose unsigned reading fails is no `float()` literal. */
  lemma NotFloat(t: string)
    requires Strip(t) == t && ParseUnsigned(t).None?
    requires t != [] && t[0] != '+' && t[0] != '-'
    ensures ParseFloat(t).None?
  {
    assert SplitSign(Strip(t)) == (false, t);
  }

  /** A word that starts with a letter and holds no `.` is no `float()` literal. */
  lemma WordNotFloat(t: string)
    requires t != [] && 'a' <= t[0] <= 'z' && NotSpace(t[|t| - 1]) && '.' !in t
    ensures ParseFloat(t).None?
  {
    StripIdentity(t);
    assert !IsDigit(t[0]);
    UnsignedWithoutPoint(t);
    NotFloat(t);
  }

  /** Lower-case letters other than `k`. */
  predicate PlainLetters(w: string) {
    forall i :: 0 <= i < |w| ==> 'a' <= w[i] <= 'z' && w[i] != 'k'
  }

  lemma PlainLettersLower(w: string, x: char)
    requires PlainLetters(w) && (x == 'k' || x == 'K')
    ensures Lower(w + [x]) == w + ['k']
  {
    var s := w + [x];
    var n := w + ['k'];
    var l := Lower(s);
    forall k | 0 <= k < |l| ensures l[k] == n[k] {
      if k < |w| {
        assert s[k] == w[k] && n[k] == w[k];
      }
    }
  }

  lemma PlainLettersStripped(w: string)
    requires w != [] && PlainLetters(w)
    ensures Strip(w + ['k']) == w + ['k']
  {
    var n := w + ['k'];
    assert NotSpace(n[0]) && NotSpace(n[|n| - 1]);
    StripIdentity(n);
  }

  lemma PlainLettersNotFloat(w: string)
    requires w != [] && PlainLetters(w)
    ensures 'k' !in w && ParseFloat(w).None?
  {
    assert '.' !in w;
    WordNotFloat(w);
  }

  lemma PlainLettersNormal(w: string, x: char)
    requires w != [] && PlainLetters(w) && (x == 'k' || x == 'K')
    ensures Normalise(w + [x]) == w + ['k']
  {
    PlainLettersLower(w, x);
    PlainLettersStripped(w);
  }

  /** Letters before the `k` are no number: `abck` raises rather than giving 0. */
  lemma LettersBeforeSuffixRaise(w: string, x: char)
    requires w != [] && PlainLetters(w)
    requires x == 'k' || x == 'K'
    ensures CleanEngagementCount(Str(w + [x])) == ValueError
  {
    PlainLettersNormal(w, x);
    PlainLettersNotFloat(w);
    ThousandsError(w + [x], w);
  }

  lemma DigitsThenMarksLower(d: string, y: char, x: char)
    requires AllDigits(d) && (y == 'm' || y == 'M') && (x == 'k' || x == 'K')
    ensures Lower(d + [y, x]) == d + ['m'] + ['k']
  {
    var s := d + [y, x];
    var n := d + ['m'] + ['k'];
    var l := Lower(s);
    forall k | 0 <= k < |l| ensures l[k] == n[k] {
      if k < |d| {
        assert s[k] == d[k] && n[k] == d[k];
      }
    }
  }

  lemma DigitsThenMarksStripped(d: string)
    requires d != [] && AllDigits(d)
    ensures Strip(d + ['m'] + ['k']) == d + ['m'] + ['k']
  {
    var n := d + ['m'] + ['k'];
    assert NotSpace(n[0]) && NotSpace(n[|n| - 1]) by {
      assert n[0] == d[0];
    }
    StripIdentity(n);
  }

  lemma DigitsThenMarksNormal(d: string, y: char, x: char)
    requires d != [] && AllDigits(d) && (y == 'm' || y == 'M') && (x == 'k' || x == 'K')
    ensures Normalise(d + [y, x]) == d + ['m'] + ['k']
  {
    DigitsThenMarksLower(d, y, x);
    DigitsThenMarksStripped(d);
  }

  /** Digits then `m` hold no `k` and are no `float()` literal. */
  lemma DigitsThenMNotFloat(d: string)
    requires d != [] && AllDigits(d)
    ensures 'k' !in d + ['m'] && ParseFloat(d + ['m']).None?
  {
    var rest := d + ['m'];
    forall k | 0 <= k < |rest| ensures rest[k] != 'k' && rest[k] != '.' {
      if k < |d| {
        assert rest[k] == d[k];
      }
    }
    assert !AllDigits(rest) by {
      assert rest[|d|] == 'm';
    }
    assert NotSpace(rest[0]) by {
      assert rest[0] == d[0];
    }
    StripIdentity(rest);
    UnsignedWithoutPoint(rest);
    NotFloat(rest);
  }

  /** The `k` test comes first: `<digits>mk` loses only its `k`, and `<digits>m` is no number. */
  lemma ThousandsTestedFirst(d: string, y: char, x: char)
    requires d != [] && AllDigits(d)
    requires (y == 'm' || y == 'M') && (x == 'k' || x == 'K')
    ensures CleanEngagementCount(Str(d + [y, x])) == ValueError
  {
    DigitsThenMarksNormal(d, y, x);
    DigitsThenMNotFloat(d);
    ThousandsError(d + [y, x], d + ['m']);
  }
}
