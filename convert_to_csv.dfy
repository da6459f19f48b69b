/** `clean_engagement_count` of the CSV converter: turns the like and retweet cells of the
    scraped JSON into integers, reading `16K` as 16000 and `1.2M` as 1200000.

    Python's `float(...) * 1000` is modelled with exact decimals: a parsed number is
    `units / 10^scale`, and `int(...)` of the product truncates toward zero. */
module ConvertToCsv {
  import opened PyStr

  /** The cell values the converter meets: a string, an integer, or a missing value. */
  datatype Value = Str(s: string) | Int(i: int) | NoneValue

  /** The call either returns an integer or raises the `ValueError` of `float(...)`, which
      nothing catches. */
  datatype Outcome = Number(n: int) | ValueError

  /** An exact decimal `units / 10^scale`. */
  datatype Decimal = Decimal(units: int, scale: nat)

  function Pow10(k: nat): (p: nat)
    ensures p >= 1
  {
    if k == 0 then 1 else 10 * Pow10(k - 1)
  }

  function DigitValue(c: char): nat
    requires IsDigit(c)
  {
    (c as int) - ('0' as int)
  }

  /** The number a string of decimal digits denotes (0 for the empty string). */
  function DigitsValue(s: string): nat
    requires AllDigits(s)
  {
    if s == [] then 0 else DigitsValue(s[..|s| - 1]) * 10 + DigitValue(s[|s| - 1])
  }

  /** The decimal notation of `n`, without leading zeros: the inverse of `DigitsValue`. */
  function ShowNat(n: nat): (r: string)
    ensures r != [] && AllDigits(r) && DigitsValue(r) == n
    ensures |r| > 1 ==> r[0] != '0'
  {
    var d := ['0' + (n % 10) as char];
    if n < 10 then d
    else
      var r := ShowNat(n / 10) + d;
      assert r[..|r| - 1] == ShowNat(n / 10);
      r
  }

  /** `str(i)` for an integer. */
  function ShowInt(i: int): (r: string)
    ensures r != []
  {
    if i < 0 then "-" + ShowNat(-i) else ShowNat(i)
  }

  /** Integer division rounded toward zero, as `int()` of a float does. */
  function TruncDiv(num: int, den: int): (q: int)
    requires den > 0
    ensures num >= 0 ==> 0 <= q && q * den <= num < (q + 1) * den
    ensures num < 0 ==> q <= 0 && (q - 1) * den < num <= q * den
  {
    if num >= 0 then
      DivBounds(num, den);
      num / den
    else
      DivBounds(-num, den);
      var m := (-num) / den;
      assert (-m) * den == -(m * den) && (-m - 1) * den == -((m + 1) * den);
      -m
  }

  lemma DivBounds(n: int, d: int)
    requires n >= 0 && d > 0
    ensures 0 <= n / d && (n / d) * d <= n < (n / d + 1) * d
  {
    var q, r := n / d, n % d;
    assert n == q * d + r && 0 <= r < d;
    assert (q + 1) * d == q * d + d;
  }

  /** An optional leading `+` or `-`: whether the number is negated, and the rest. */
  function SplitSign(t: string): (r: (bool, string))
    ensures |r.1| <= |t|
  {
    if t != [] && (t[0] == '+' || t[0] == '-') then (t[0] == '-', t[1..]) else (false, t)
  }

  /** `int(s)` for a string: surrounding whitespace, an optional sign and at least one digit. */
  function ParseInt(s: string): (r: Option<int>)
    ensures r.Some? ==> Strip(s) != []
    ensures r.Some? && r.value < 0 ==> Strip(s)[0] == '-'
  {
    var (neg, body) := SplitSign(Strip(s));
    if body != [] && AllDigits(body) then
      var n: int := DigitsValue(body);
      Some(if neg then -n else n)
    else None
  }

  /** A stripped string that `int()` accepts holds nothing but a leading sign and digits. */
  lemma ParseIntChars(t: string)
    requires Strip(t) == t && ParseInt(t).Some?
    ensures forall i :: 0 <= i < |t| ==> IsDigit(t[i]) || (i == 0 && (t[0] == '+' || t[0] == '-'))
  {
    var (neg, body) := SplitSign(t);
    forall i | 0 <= i < |t| ensures IsDigit(t[i]) || (i == 0 && (t[0] == '+' || t[0] == '-')) {
      if t[0] == '+' || t[0] == '-' {
        if i > 0 {
          assert t[i] == body[i - 1];
        }
      } else {
        assert t[i] == body[i];
      }
    }
  }

  /** The unsigned part of a `float()` literal: digits, or digits with one `.` and at least
      one digit on either side of it. */
  function ParseUnsigned(body: string): (r: Option<Decimal>)
    ensures r.Some? ==> r.value.units >= 0
  {
    var parts := Split(body, '.');
    if |parts| == 1 then
      if body != [] && AllDigits(body) then Some(Decimal(DigitsValue(body), 0)) else None
    else if |parts| == 2 && AllDigits(parts[0]) && AllDigits(parts[1]) && parts[0] + parts[1] != [] then
      assert AllDigits(parts[0] + parts[1]) by {
        var w := parts[0] + parts[1];
        forall i | 0 <= i < |w| ensures IsDigit(w[i]) {
          if i >= |parts[0]| {
            assert w[i] == parts[1][i - |parts[0]|];
          }
        }
      }
      Some(Decimal(DigitsValue(parts[0] + parts[1]), |parts[1]|))
    else None
  }

  /** A magnitude with the sign read in front of it. */
  function Signed(neg: bool, u: nat): int {
    if neg then -(u as int) else u
  }

  /** `float(s)` restricted to sign, digits and an optional fractional part. */
  function ParseFloat(s: string): (r: Option<Decimal>)
    ensures r.Some? ==> Strip(s) != []
    ensures r.Some? && r.value.units < 0 ==> Strip(s)[0] == '-'
  {
    var (neg, body) := SplitSign(Strip(s));
    match ParseUnsigned(body)
    case None => None
    case Some(d) => Some(Decimal(Signed(neg, d.units), d.scale))
  }

  /** `int(float(t) * factor)`, or the error `float(t)` raises. */
  function Scaled(t: string, factor: nat): (r: Outcome)
    ensures r.ValueError? <==> ParseFloat(t).None?
    ensures r.Number? ==>
              var d := ParseFloat(t).value;
              var exact := d.units * factor;
              && (exact >= 0 ==> 0 <= r.n && r.n * Pow10(d.scale) <= exact < (r.n + 1) * Pow10(d.scale))
              && (exact < 0 ==> r.n <= 0 && (r.n - 1) * Pow10(d.scale) < exact <= r.n * Pow10(d.scale))
  {
    match ParseFloat(t)
    case None => ValueError
    case Some(d) => Number(TruncDiv(d.units * factor, Pow10(d.scale)))
  }

  /** The string a string cell is first turned into: lower-cased, then stripped. */
  function Normalise(s: string): string {
    Strip(Lower(s))
  }

  /** The normal form holds no ASCII capital and neither starts nor ends with whitespace. */
  lemma NormalShape(s: string)
    ensures var r := Normalise(s);
            && (r == [] || (NotSpace(r[0]) && NotSpace(r[|r| - 1])))
            && forall x :: x in r ==> !('A' <= x <= 'Z')
  {
    LowerNoCapital(s);
    StripInside(Lower(s));
  }

  /** `clean_engagement_count`. A string is normalised; one holding a `k` is read as a decimal
      with every `k` removed and multiplied by 1000, else one holding an `m` likewise by a
      million, and either raises when the rest is not a number; any other value goes through
      `int()`, whose failure gives 0. */
  function CleanEngagementCount(v: Value): (r: Outcome)
    ensures v.Int? ==> r == Number(v.i)
    ensures v.NoneValue? ==> r == Number(0)
    ensures r.ValueError? ==> v.Str? && ('k' in Normalise(v.s) || 'm' in Normalise(v.s))
    ensures v.Str? && 'k' in Normalise(v.s) ==> r == Scaled(RemoveChar(Normalise(v.s), 'k'), 1000)
    ensures v.Str? && 'k' !in Normalise(v.s) && 'm' in Normalise(v.s) ==> r == Scaled(RemoveChar(Normalise(v.s), 'm'), 1000000)
    ensures v.Str? && 'k' !in Normalise(v.s) && 'm' !in Normalise(v.s) ==>
              r == (if ParseInt(Normalise(v.s)).Some? then Number(ParseInt(Normalise(v.s)).value) else Number(0))
  {
    match v
    case Str(s) =>
      var value := Normalise(s);
      if 'k' in value then Scaled(RemoveChar(value, 'k'), 1000)
      else if 'm' in value then Scaled(RemoveChar(value, 'm'), 1000000)
      else (match ParseInt(value)
            case Some(n) => Number(n)
            case None => Number(0))
    case Int(i) => Number(i)
    case NoneValue => Number(0)
  }

  // ---------------------------------------------------------------- properties

  /** A string that lower-casing and stripping both leave alone is in normal form. */
  lemma NormalFixed(s: string)
    requires Lower(s) == s && Strip(s) == s
    ensures Normalise(s) == s
  {
  }

  /** Digits, signs and decimal points: the characters of a plain numeral. */
  predicate Numeral(r: string) {
    forall k :: 0 <= k < |r| ==> IsDigit(r[k]) || r[k] == '-' || r[k] == '+' || r[k] == '.'
  }

  /** The shape of `str(i)`: an optional minus sign and then digits. */
  lemma ShowIntShape(i: int)
    ensures Numeral(ShowInt(i))
    ensures SplitSign(ShowInt(i)) == (i < 0, ShowNat(if i < 0 then -i else i))
  {
    var r := ShowInt(i);
    if i < 0 {
      assert r[1..] == ShowNat(-i);
      forall k | 0 < k < |r| ensures IsDigit(r[k]) {
        assert r[k] == ShowNat(-i)[k - 1];
      }
    }
  }

  /** A numeral is neither lower-cased nor stripped. */
  lemma NumeralNormal(r: string)
    requires r != [] && Numeral(r)
    ensures Strip(r) == r && Lower(r) == r && Normalise(r) == r
  {
    LowerIdentity(r);
    assert NotSpace(r[0]) && NotSpace(r[|r| - 1]);
    StripIdentity(r);
  }

  /** A numeral holds neither of the suffix letters. */
  lemma NumeralMarks(r: string)
    requires Numeral(r)
    ensures 'k' !in r && 'm' !in r
  {
  }

  /** `int()` reads back what `str()` writes. */
  lemma ParseIntShowInt(i: int)
    ensures ParseInt(ShowInt(i)) == Some(i)
  {
    ShowIntShape(i);
    NumeralNormal(ShowInt(i));
  }

  /** `float()` reads back what `str()` writes, as a whole decimal. */
  lemma ParseFloatShowInt(i: int)
    ensures ParseFloat(ShowInt(i)) == Some(Decimal(i, 0))
  {
    ShowIntShape(i);
    NumeralNormal(ShowInt(i));
    var digits := ShowNat(if i < 0 then -i else i);
    ParseUnsignedDigits(digits);
  }

  /** A non-empty string of digits is an unsigned `float()` literal of scale 0. */
  lemma ParseUnsignedDigits(digits: string)
    requires digits != [] && AllDigits(digits)
    ensures ParseUnsigned(digits) == Some(Decimal(DigitsValue(digits), 0))
  {
    SplitNoSeparator(digits, '.');
  }

  /** An integer literal comes back as that integer. */
  lemma IntegerRoundTrip(i: int)
    ensures CleanEngagementCount(Str(ShowInt(i))) == Number(i)
  {
    ShowIntShape(i);
    NumeralNormal(ShowInt(i));
    NumeralMarks(ShowInt(i));
    ParseIntShowInt(i);
  }

  /** Lower-casing a numeral followed by a letter touches the letter only. */
  lemma LowerWithSuffix(r: string, x: char)
    requires Numeral(r)
    ensures Lower(r + [x]) == r + [LowerChar(x)]
  {
    var w := r + [LowerChar(x)];
    var l := Lower(r + [x]);
    forall k | 0 <= k < |w| ensures l[k] == w[k] {
      if k < |r| {
        assert l[k] == LowerChar(r[k]) && LowerChar(r[k]) == r[k];
      }
    }
  }

  /** A numeral followed by a suffix letter is already stripped. */
  lemma StrippedWithSuffix(r: string, c: char)
    requires r != [] && Numeral(r) && (c == 'k' || c == 'm')
    ensures Strip(r + [c]) == r + [c]
  {
    var w := r + [c];
    assert NotSpace(w[0]) by {
      assert w[0] == r[0];
    }
    assert NotSpace(w[|w| - 1]);
    StripIdentity(w);
  }

  /** Removing the suffix letter from a numeral followed by it gives the numeral. */
  lemma RemoveSuffix(r: string, c: char)
    requires Numeral(r) && (c == 'k' || c == 'm')
    ensures RemoveChar(r + [c], c) == r
  {
    NumeralMarks(r);
    RemoveCharConcat(r, [c], c);
    RemoveCharAbsent(r, c);
    assert RemoveChar([c], c) == [];
  }

  /** Appending a suffix letter in either case to a numeral: normalising lower-cases the
      letter only, and removing the letter gives the numeral back. */
  lemma WithSuffix(r: string, x: char, c: char)
    requires r != [] && Numeral(r)
    requires (c == 'k' || c == 'm') && LowerChar(x) == c
    ensures Normalise(r + [x]) == r + [c]
    ensures RemoveChar(r + [c], c) == r
  {
    LowerWithSuffix(r, x);
    StrippedWithSuffix(r, c);
    RemoveSuffix(r, c);
  }

  /** The `k` branch, once the normal form is known to be `rest` and a `k`. */
  lemma ThousandsBranch(s: string, rest: string)
    requires Normalise(s) == rest + ['k'] && RemoveChar(rest + ['k'], 'k') == rest
    ensures CleanEngagementCount(Str(s)) == Scaled(rest, 1000)
  {
    assert 'k' in rest + ['k'];
  }

  /** The `m` branch, once the normal form is known to be `rest` and an `m`. */
  lemma MillionsBranch(s: string, rest: string)
    requires 'k' !in rest
    requires Normalise(s) == rest + ['m'] && RemoveChar(rest + ['m'], 'm') == rest
    ensures CleanEngagementCount(Str(s)) == Scaled(rest, 1000000)
  {
    assert 'm' in rest + ['m'];
    assert 'k' !in rest + ['m'];
  }

  /** A numeral followed by `k` or `K` reads as its value times a thousand, truncated toward
      zero. */
  lemma ThousandsOf(r: string, x: char, d: Decimal)
    requires r != [] && Numeral(r) && ParseFloat(r) == Some(d)
    requires x == 'k' || x == 'K'
    ensures CleanEngagementCount(Str(r + [x])) == Number(TruncDiv(d.units * 1000, Pow10(d.scale)))
  {
    if x == 'k' {
      WithSuffix(r, 'k', 'k');
      ThousandsBranch(r + "k", r);
    } else {
      WithSuffix(r, 'K', 'k');
      ThousandsBranch(r + "K", r);
    }
  }

  /** The same with `m` or `M` and millions. */
  lemma MillionsOf(r: string, x: char, d: Decimal)
    requires r != [] && Numeral(r) && ParseFloat(r) == Some(d)
    requires x == 'm' || x == 'M'
    ensures CleanEngagementCount(Str(r + [x])) == Number(TruncDiv(d.units * 1000000, Pow10(d.scale)))
  {
    NumeralMarks(r);
    if x == 'm' {
      WithSuffix(r, 'm', 'm');
      MillionsBranch(r + "m", r);
    } else {
      WithSuffix(r, 'M', 'm');
      MillionsBranch(r + "M", r);
    }
  }

  /** A whole number needs no rounding. */
  lemma TruncDivWhole(num: int)
    ensures TruncDiv(num, Pow10(0)) == num
  {
  }

  /** `<i>k` and `<i>K` read as `i` thousand. */
  lemma ThousandsRoundTrip(i: int)
    ensures CleanEngagementCount(Str(ShowInt(i) + "k")) == Number(i * 1000)
    ensures CleanEngagementCount(Str(ShowInt(i) + "K")) == Number(i * 1000)
  {
    ShowIntShape(i);
    ParseFloatShowInt(i);
    ThousandsOf(ShowInt(i), 'k', Decimal(i, 0));
    ThousandsOf(ShowInt(i), 'K', Decimal(i, 0));
    TruncDivWhole(i * 1000);
  }

  /** `<i>m` and `<i>M` read as `i` million. */
  lemma MillionsRoundTrip(i: int)
    ensures CleanEngagementCount(Str(ShowInt(i) + "m")) == Number(i * 1000000)
    ensures CleanEngagementCount(Str(ShowInt(i) + "M")) == Number(i * 1000000)
  {
    ShowIntShape(i);
    ParseFloatShowInt(i);
    MillionsOf(ShowInt(i), 'm', Decimal(i, 0));
    MillionsOf(ShowInt(i), 'M', Decimal(i, 0));
    TruncDivWhole(i * 1000000);
  }

  lemma AllDigitsConcat(x: string, y: string)
    requires AllDigits(x) && AllDigits(y)
    ensures AllDigits(x + y)
  {
    var w := x + y;
    forall k | 0 <= k < |w| ensures IsDigit(w[k]) {
      if k >= |x| {
        assert w[k] == y[k - |x|];
      }
    }
  }

  /** Reading digits after digits shifts the first ones by the length of the second. */
  lemma {:induction false} DigitsValueConcat(x: string, y: string)
    requires AllDigits(x) && AllDigits(y)
    decreases |y|
    ensures AllDigits(x + y)
    ensures DigitsValue(x + y) == DigitsValue(x) * Pow10(|y|) + DigitsValue(y)
  {
    AllDigitsConcat(x, y);
    if y == [] {
      assert x + y == x;
    } else {
      var y' := y[..|y| - 1];
      var e := DigitValue(y[|y| - 1]);
      assert (x + y)[..|x + y| - 1] == x + y';
      assert (x + y)[|x + y| - 1] == y[|y| - 1];
      DigitsValueConcat(x, y');
      assert DigitsValue(x + y) == DigitsValue(x + y') * 10 + e;
      assert DigitsValue(y) == DigitsValue(y') * 10 + e;
      ShiftStep(DigitsValue(x), Pow10(|y'|), DigitsValue(y'), e);
    }
  }

  lemma ShiftStep(a: nat, b: nat, c: nat, e: nat)
    ensures (a * b + c) * 10 + e == a * (10 * b) + (c * 10 + e)
  {
  }

  /** The decimal a numeral `[-]<a>.<f>` denotes. */
  function FractionUnits(neg: bool, a: nat, f: string): int
    requires AllDigits(f)
  {
    Signed(neg, a * Pow10(|f|) + DigitsValue(f))
  }

  /** The numeral `[-]<a>.<f>`. */
  function FractionNumeral(neg: bool, a: nat, f: string): string {
    (if neg then "-" else "") + ShowNat(a) + "." + f
  }

  lemma NumeralConcat(x: string, y: string)
    requires Numeral(x) && Numeral(y)
    ensures Numeral(x + y)
  {
    var w := x + y;
    forall k | 0 <= k < |w| ensures IsDigit(w[k]) || w[k] == '-' || w[k] == '+' || w[k] == '.' {
      if k >= |x| {
        assert w[k] == y[k - |x|];
      }
    }
  }

  lemma FractionNumeralIsNumeral(neg: bool, a: nat, f: string)
    requires AllDigits(f)
    ensures Numeral(FractionNumeral(neg, a, f))
  {
    var sign: string := if neg then "-" else "";
    NumeralConcat(sign, ShowNat(a));
    NumeralConcat(sign + ShowNat(a), ".");
    NumeralConcat(sign + ShowNat(a) + ".", f);
  }

  lemma FractionStripped(neg: bool, a: nat, f: string)
    requires AllDigits(f)
    ensures Strip(FractionNumeral(neg, a, f)) == FractionNumeral(neg, a, f)
  {
    FractionNumeralIsNumeral(neg, a, f);
    NumeralNormal(FractionNumeral(neg, a, f));
  }

  lemma FractionSign(neg: bool, a: nat, f: string)
    ensures SplitSign(FractionNumeral(neg, a, f)) == (neg, ShowNat(a) + "." + f)
  {
    var digits := ShowNat(a) + "." + f;
    var r := FractionNumeral(neg, a, f);
    if neg {
      assert r == "-" + digits;
      assert r[1..] == digits;
    } else {
      assert r == digits;
    }
  }

  lemma ParseUnsignedFraction(a: nat, f: string)
    requires f != [] && AllDigits(f)
    ensures ParseUnsigned(ShowNat(a) + "." + f) == Some(Decimal(a * Pow10(|f|) + DigitsValue(f), |f|))
  {
    SplitFraction(a, f);
    var parts := [ShowNat(a), f];
    DigitsValueConcat(ShowNat(a), f);
    assert DigitsValue(parts[0] + parts[1]) == a * Pow10(|f|) + DigitsValue(f);
  }

  /** `<a>.<f>` splits at its one point. */
  lemma SplitFraction(a: nat, f: string)
    requires AllDigits(f)
    ensures Split(ShowNat(a) + "." + f, '.') == [ShowNat(a), f]
  {
    assert '.' !in ShowNat(a);
    assert '.' !in f;
    SplitAfterPart(ShowNat(a), '.', f);
    SplitNoSeparator(f, '.');
  }

  /** `float()` of a stripped string, once its sign and unsigned part are read. */
  lemma ParseFloatSigned(r: string, neg: bool, digits: string, u: nat, scale: nat)
    requires Strip(r) == r && SplitSign(r) == (neg, digits) && ParseUnsigned(digits) == Some(Decimal(u, scale))
    ensures ParseFloat(r) == Some(Decimal(Signed(neg, u), scale))
  {
  }

  /** `float()` reads a numeral with a fractional part exactly. */
  lemma ParseFloatFraction(neg: bool, a: nat, f: string)
    requires f != [] && AllDigits(f)
    ensures ParseFloat(FractionNumeral(neg, a, f)) == Some(Decimal(FractionUnits(neg, a, f), |f|))
  {
    var digits := ShowNat(a) + "." + f;
    var u := a * Pow10(|f|) + DigitsValue(f);
    FractionStripped(neg, a, f);
    FractionSign(neg, a, f);
    ParseUnsignedFraction(a, f);
    assert ParseUnsigned(digits) == Some(Decimal(u, |f|));
    assert Strip(FractionNumeral(neg, a, f)) == FractionNumeral(neg, a, f);
    assert SplitSign(FractionNumeral(neg, a, f)) == (neg, digits);
    ParseFloatSigned(FractionNumeral(neg, a, f), neg, digits, u, |f|);
    assert ParseFloat(FractionNumeral(neg, a, f)) == Some(Decimal(Signed(neg, u), |f|));
    assert FractionUnits(neg, a, f) == Signed(neg, u);
  }

  /** `[-]<a>.<f>` followed by `k` or `K` reads as that decimal times a thousand, truncated
      toward zero. */
  lemma DecimalThousands(neg: bool, a: nat, f: string, x: char)
    requires f != [] && AllDigits(f) && (x == 'k' || x == 'K')
    ensures CleanEngagementCount(Str(FractionNumeral(neg, a, f) + [x]))
            == Number(TruncDiv(FractionUnits(neg, a, f) * 1000, Pow10(|f|)))
  {
    ParseFloatFraction(neg, a, f);
    FractionNumeralIsNumeral(neg, a, f);
    ThousandsOf(FractionNumeral(neg, a, f), x, Decimal(FractionUnits(neg, a, f), |f|));
  }

  /** The same with `m` or `M` and millions. */
  lemma DecimalMillions(neg: bool, a: nat, f: string, x: char)
    requires f != [] && AllDigits(f) && (x == 'm' || x == 'M')
    ensures CleanEngagementCount(Str(FractionNumeral(neg, a, f) + [x]))
            == Number(TruncDiv(FractionUnits(neg, a, f) * 1000000, Pow10(|f|)))
  {
    ParseFloatFraction(neg, a, f);
    FractionNumeralIsNumeral(neg, a, f);
    MillionsOf(FractionNumeral(neg, a, f), x, Decimal(FractionUnits(neg, a, f), |f|));
  }

  /** Case is ignored: a string and its lower-case form give the same outcome. */
  lemma CaseIgnored(s: string)
    ensures CleanEngagementCount(Str(Lower(s))) == CleanEngagementCount(Str(s))
  {
    LowerIdempotent(s);
  }

  /** The outcome for a string depends on its normal form only. */
  lemma SameNormalForm(s: string, t: string)
    requires Normalise(s) == Normalise(t)
    ensures CleanEngagementCount(Str(s)) == CleanEngagementCount(Str(t))
  {
  }

  /** Lower-casing and stripping twice does what doing them once does. */
  lemma NormaliseIdempotent(s: string)
    ensures Normalise(Normalise(s)) == Normalise(s)
  {
    LowerOfStrip(Lower(s));
    LowerIdempotent(s);
    StripIdempotent(Lower(s));
  }

  /** Normalising first makes no difference. */
  lemma NormalisationInvariance(s: string)
    ensures CleanEngagementCount(Str(Normalise(s))) == CleanEngagementCount(Str(s))
  {
    NormaliseIdempotent(s);
    SameNormalForm(Normalise(s), s);
  }

  /** Without a suffix letter, the string goes through `int()`, whose failure gives 0. */
  lemma IntegerBranch(s: string)
    requires 'k' !in Normalise(s) && 'm' !in Normalise(s)
    ensures ParseInt(Normalise(s)).None? ==> CleanEngagementCount(Str(s)) == Number(0)
    ensures ParseInt(Normalise(s)).Some? ==> CleanEngagementCount(Str(s)) == Number(ParseInt(Normalise(s)).value)
  {
  }

  /** A stripped string with a `.` or a `,` in it, or the empty string, is no `int()` literal. */
  lemma NoIntegerLiteral(t: string)
    requires Strip(t) == t
    requires '.' in t || ',' in t || t == []
    ensures ParseInt(t).None?
  {
    if ParseInt(t).Some? {
      ParseIntChars(t);
      assert false;
    }
  }

  /** Without a `k` or an `m`, a string with a `.` or a `,` in it, or with nothing but
      whitespace, is not an integer literal and gives 0. */
  lemma NotIntegerLiteral(s: string)
    requires 'k' !in Normalise(s) && 'm' !in Normalise(s)
    requires '.' in Normalise(s) || ',' in Normalise(s) || Normalise(s) == []
    ensures CleanEngagementCount(Str(s)) == Number(0)
  {
    NormaliseIdempotent(s);
    assert Strip(Normalise(s)) == Normalise(s) by {
      StripIdempotent(Lower(s));
    }
    NoIntegerLiteral(Normalise(s));
    IntegerBranch(s);
  }

  /** In the `k` branch, a rest that `float()` refuses makes the call raise. */
  lemma ThousandsError(s: string, rest: string)
    requires 'k' !in rest && Normalise(s) == rest + ['k'] && ParseFloat(rest).None?
    ensures CleanEngagementCount(Str(s)) == ValueError
  {
    RemoveCharConcat(rest, ['k'], 'k');
    RemoveCharAbsent(rest, 'k');
    assert RemoveChar(['k'], 'k') == [];
    ThousandsBranch(s, rest);
  }
}
