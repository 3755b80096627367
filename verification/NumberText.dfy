/** Printing a number from its shortest digits and its exponent, by the case
    split of section 6.1.6.1.20 of ECMA-262, and reading the text back. */
module NumberText {
  import opened Options
  import opened Decimal

  /** The number m * 10^e. */
  datatype Scaled = Scaled(m: nat, e: int)

  /** m * 10^j: j zeros after the digits of m. */
  function Shifted(m: nat, j: nat): nat { if j == 0 then m else 10 * Shifted(m, j - 1) }

  /** The two stand for the same number. */
  predicate Same(a: Scaled, b: Scaled) {
    if a.e >= b.e then Shifted(a.m, a.e - b.e) == b.m else a.m == Shifted(b.m, b.e - a.e)
  }

  /** Digits as the program keeps them: no zero at either end. */
  predicate Normalised(digits: string) {
    digits != [] && AllDigits(digits) && digits[0] != '0' && digits[|digits| - 1] != '0'
  }

  function Zeros(n: nat): (s: string)
    ensures |s| == n && AllDigits(s) && forall i :: 0 <= i < n ==> s[i] == '0'
  {
    seq(n, _ => '0')
  }

  // ---------------------------------------------------------------------
  // Printing
  // ---------------------------------------------------------------------

  /** One digit before the point. */
  function Leading(digits: string): string
    requires digits != []
  {
    digits[..1] + if |digits| > 1 then ['.'] + digits[1..] else ""
  }

  function ExponentText(e: int): string {
    (if e >= 0 then "+" else "-") + NatText(if e >= 0 then e else -e)
  }

  /** The text of digits * 10^(n - k), k being the number of digits. */
  function Text(digits: string, n: int): string
    requires digits != []
  {
    var k := |digits|;
    if k <= n <= 21 then digits + Zeros(n - k)
    else if 0 < n <= 21 then digits[..n] + (['.'] + digits[n..])
    else if -6 < n <= 0 then "0" + (['.'] + (Zeros(-n) + digits))
    else Leading(digits) + (['e'] + ExponentText(n - 1))
  }

  function Signed(negative: bool, t: string): string { if negative then "-" + t else t }

  /** Trailing zeros off, one digit at least. */
  function Strip(digits: string): (r: string)
    ensures digits != [] ==> r != []
  {
    if |digits| > 1 && digits[|digits| - 1] == '0' then Strip(digits[..|digits| - 1]) else digits
  }

  /** The last part of `js_double_to_string`, from the mantissa digits and the
      exponent that printing in scientific notation gave. */
  method PrintNumber(negative: bool, mantissa: string, exponent: int) returns (text: string)
    requires mantissa != [] && AllDigits(mantissa) && mantissa[0] != '0'
    ensures text == Signed(negative, Text(Strip(mantissa), exponent + 1))
    ensures ReadsAs(text, negative, Scaled(NatValue(mantissa), exponent + 1 - |mantissa|))
  {
    var digits := StripZeros(mantissa);
    var out := Layout(digits, exponent + 1);
    text := Signed(negative, out);
    ReadText(negative, mantissa, exponent + 1, text);
  }

  method StripZeros(mantissa: string) returns (digits: string)
    requires mantissa != []
    ensures digits == Strip(mantissa)
  {
    digits := mantissa;
    while |digits| > 1 && digits[|digits| - 1] == '0'
      invariant digits != [] && Strip(digits) == Strip(mantissa)
    {
      digits := digits[..|digits| - 1];
    }
  }

  /** The case split on the number of digits and the exponent. */
  method Layout(digits: string, n: int) returns (out: string)
    requires digits != []
    ensures out == Text(digits, n)
  {
    var k := |digits|;
    if k <= n && n <= 21 {
      out := digits + Zeros(n - k);
    } else if 0 < n && n <= 21 {
      out := digits[..n] + (['.'] + digits[n..]);
    } else if -6 < n && n <= 0 {
      out := "0" + (['.'] + (Zeros(-n) + digits));
    } else {
      out := Leading(digits) + (['e'] + ExponentText(n - 1));
    }
  }

  // ---------------------------------------------------------------------
  // Reading
  // ---------------------------------------------------------------------

  /** How far a reader got: in the whole part, after the point, in the
      fraction, after the letter, or in the exponent. */
  datatype State =
    | Start | Whole(m: nat) | Point(m: nat) | Fraction(m: nat, e: int) | Letter(m: nat, e: int)
    | Sign(m: nat, e: int, minus: bool) | Exponent(m: nat, e: int, minus: bool, x: nat) | Bad

  function Step(s: State, c: char): State {
    if IsDigit(c) then
      var d := DigitValue(c);
      match s
      case Start => Whole(d)
      case Whole(m) => Whole(10 * m + d)
      case Point(m) => Fraction(10 * m + d, -1)
      case Fraction(m, e) => Fraction(10 * m + d, e - 1)
      case Sign(m, e, minus) => Exponent(m, e, minus, d)
      case Exponent(m, e, minus, x) => Exponent(m, e, minus, 10 * x + d)
      case _ => Bad
    else if c == '.' && s.Whole? then Point(s.m)
    else if c == 'e' && s.Whole? then Letter(s.m, 0)
    else if c == 'e' && s.Fraction? then Letter(s.m, s.e)
    else if (c == '+' || c == '-') && s.Letter? then Sign(s.m, s.e, c == '-')
    else Bad
  }

  function Scan(s: State, t: string): State
    decreases |t|
  {
    if t == [] then s else Scan(Step(s, t[0]), t[1..])
  }

  function Outcome(s: State): Option<Scaled> {
    match s
    case Whole(m) => Some(Scaled(m, 0))
    case Fraction(m, e) => Some(Scaled(m, e))
    case Exponent(m, e, minus, x) => Some(Scaled(m, if minus then e - x else e + x))
    case _ => None
  }

  function ReadUnsigned(t: string): Option<Scaled> {
    Outcome(Scan(Start, t))
  }

  /** What a text says: a sign and a magnitude. */
  datatype Reading = Reading(negative: bool, magnitude: Scaled)

  function ReadNumber(t: string): Option<Reading> {
    var negative := t != [] && t[0] == '-';
    match ReadUnsigned(if negative then t[1..] else t)
    case Some(s) => Some(Reading(negative, s))
    case None => None
  }

  /** The text reads as the given sign and exactly the given number. */
  ghost predicate ReadsAs(t: string, negative: bool, s: Scaled) {
    ReadNumber(t).Some? && ReadNumber(t).value.negative == negative && Same(ReadNumber(t).value.magnitude, s)
  }

  // ---------------------------------------------------------------------
  // Values of digit strings
  // ---------------------------------------------------------------------

  lemma {:induction false} ShiftedTwice(m: nat, a: nat, b: nat)
    ensures Shifted(Shifted(m, a), b) == Shifted(m, a + b)
  {
    if b > 0 {
      ShiftedTwice(m, a, b - 1);
    }
  }

  lemma TimesTen(m: nat)
    ensures (10 * m) % 10 == 0
  {
  }

  /** A number that does not end in zero determines its digits and zeros. */
  lemma {:induction false} ShiftedUnique(m: nat, j: nat, m': nat, j': nat)
    requires m % 10 != 0 && m' % 10 != 0 && Shifted(m, j) == Shifted(m', j')
    ensures m == m' && j == j'
  {
    if j > 0 && j' > 0 {
      ShiftedUnique(m, j - 1, m', j' - 1);
    } else if j > 0 {
      TimesTen(Shifted(m, j - 1));
    } else if j' > 0 {
      TimesTen(Shifted(m', j' - 1));
    }
  }

  lemma {:induction false} TrailingZeros(digits: string, n: nat)
    requires AllDigits(digits)
    ensures NatValue(digits + Zeros(n)) == Shifted(NatValue(digits), n)
  {
    if n == 0 {
      assert digits + Zeros(0) == digits;
    } else {
      var t := digits + Zeros(n);
      assert t[..|t| - 1] == digits + Zeros(n - 1);
      TrailingZeros(digits, n - 1);
    }
  }

  lemma {:induction false} LeadingZeros(n: nat, digits: string)
    requires AllDigits(digits)
    ensures NatValue(Zeros(n) + digits) == NatValue(digits)
    decreases n + |digits|
  {
    var t := Zeros(n) + digits;
    if digits != [] {
      assert t[..|t| - 1] == Zeros(n) + digits[..|digits| - 1];
      LeadingZeros(n, digits[..|digits| - 1]);
    } else if n > 0 {
      assert t == Zeros(n) && t[..n - 1] == Zeros(n - 1) + [];
      LeadingZeros(n - 1, []);
    }
  }

  /** Stripping zeros leaves normalised digits of the same number. */
  lemma {:induction false} StripValue(digits: string)
    requires digits != [] && AllDigits(digits) && digits[0] != '0'
    ensures Normalised(Strip(digits)) && |Strip(digits)| <= |digits|
    ensures NatValue(digits) == Shifted(NatValue(Strip(digits)), |digits| - |Strip(digits)|)
    decreases |digits|
  {
    if |digits| > 1 && digits[|digits| - 1] == '0' {
      StripValue(digits[..|digits| - 1]);
    }
  }

  // ---------------------------------------------------------------------
  // The text reads back
  // ---------------------------------------------------------------------

  lemma {:induction false} ScanBoth(s: State, a: string, b: string)
    ensures Scan(s, a + b) == Scan(Scan(s, a), b)
    decreases |a|
  {
    if a == [] {
      assert a + b == b;
    } else {
      assert (a + b)[1..] == a[1..] + b;
      ScanBoth(Step(s, a[0]), a[1..], b);
    }
  }

  /** The number whose digits are those of m, then d. */
  function Append(m: nat, d: string): nat
    requires AllDigits(d)
    decreases |d|
  {
    if d == [] then m else Append(10 * m + DigitValue(d[0]), d[1..])
  }

  lemma {:induction false} AppendBoth(m: nat, a: string, b: string)
    requires AllDigits(a) && AllDigits(b)
    ensures Append(m, a + b) == Append(Append(m, a), b)
    decreases |a|
  {
    if a == [] {
      assert a + b == b;
    } else {
      assert (a + b)[1..] == a[1..] + b;
      AppendBoth(10 * m + DigitValue(a[0]), a[1..], b);
    }
  }

  lemma {:induction false} AppendValue(d: string)
    requires AllDigits(d)
    ensures Append(0, d) == NatValue(d)
    decreases |d|
  {
    if d != [] {
      var front, last := d[..|d| - 1], [d[|d| - 1]];
      assert d == front + last;
      AppendValue(front);
      AppendBoth(0, front, last);
    }
  }

  lemma {:induction false} ScanWhole(m: nat, d: string)
    requires AllDigits(d)
    ensures Scan(Whole(m), d) == Whole(Append(m, d))
    decreases |d|
  {
    if d != [] {
      ScanWhole(10 * m + DigitValue(d[0]), d[1..]);
    }
  }

  lemma {:induction false} ScanFraction(m: nat, e: int, d: string)
    requires AllDigits(d)
    ensures Scan(Fraction(m, e), d) == Fraction(Append(m, d), e - |d|)
    decreases |d|
  {
    if d != [] {
      ScanFraction(10 * m + DigitValue(d[0]), e - 1, d[1..]);
    }
  }

  lemma {:induction false} ScanExponent(m: nat, e: int, minus: bool, x: nat, d: string)
    requires AllDigits(d)
    ensures Scan(Exponent(m, e, minus, x), d) == Exponent(m, e, minus, Append(x, d))
    decreases |d|
  {
    if d != [] {
      ScanExponent(m, e, minus, 10 * x + DigitValue(d[0]), d[1..]);
    }
  }

  lemma ScanDigits(d: string)
    requires d != [] && AllDigits(d)
    ensures Scan(Start, d) == Whole(NatValue(d))
  {
    AppendValue(d);
    ScanWhole(DigitValue(d[0]), d[1..]);
  }

  lemma ScanTail(s: State, c: char, b: string)
    ensures Scan(s, [c] + b) == Scan(Step(s, c), b)
  {
    assert ([c] + b)[1..] == b;
  }

  /** Digits, a point and more digits. */
  lemma ScanPointed(a: string, b: string)
    requires a != [] && b != [] && AllDigits(a) && AllDigits(b)
    ensures Scan(Start, a + (['.'] + b)) == Fraction(NatValue(a + b), -|b|)
  {
    ScanBoth(Start, a, ['.'] + b);
    ScanDigits(a);
    ScanPoint(NatValue(a), b);
    Concatenated(a, b);
  }

  lemma ScanPoint(m: nat, b: string)
    requires b != [] && AllDigits(b)
    ensures Scan(Whole(m), ['.'] + b) == Fraction(Append(m, b), -|b|)
  {
    ScanTail(Whole(m), '.', b);
    ScanFraction(10 * m + DigitValue(b[0]), -1, b[1..]);
  }

  lemma Concatenated(a: string, b: string)
    requires AllDigits(a) && AllDigits(b)
    ensures NatValue(a + b) == Append(NatValue(a), b)
  {
    AppendValue(a);
    AppendValue(a + b);
    AppendBoth(0, a, b);
  }

  /** The letter and what follows it shift the exponent. */
  lemma ScanLarge(s: State, m: string, x: int, t: string)
    requires Scan(Start, m) == s && (s.Whole? || s.Fraction?) && t == m + (['e'] + ExponentText(x))
    ensures ReadUnsigned(t) == Some(Scaled(s.m, (if s.Whole? then 0 else s.e) + x))
  {
    ScanBoth(Start, m, ['e'] + ExponentText(x));
    ScanTail(s, 'e', ExponentText(x));
    ScanExponentText(s.m, if s.Whole? then 0 else s.e, x);
  }

  lemma ScanExponentText(m: nat, e: int, x: int)
    ensures Outcome(Scan(Letter(m, e), ExponentText(x))) == Some(Scaled(m, e + x))
  {
    var size := if x >= 0 then x else -x;
    var sign, digits := if x >= 0 then '+' else '-', NatText(size);
    ScanTail(Letter(m, e), sign, digits);
    ScanExponent(m, e, x < 0, DigitValue(digits[0]), digits[1..]);
    AppendValue(digits);
    NatRoundTrip(size);
  }

  function LeadingState(m: nat, k: nat): State {
    if k > 1 then Fraction(m, 1 - k) else Whole(m)
  }

  lemma ScanLeading(digits: string)
    requires Normalised(digits)
    ensures Scan(Start, Leading(digits)) == LeadingState(NatValue(digits), |digits|)
  {
    if |digits| > 1 {
      assert digits[..1] + digits[1..] == digits;
      ScanPointed(digits[..1], digits[1..]);
    } else {
      assert Leading(digits) == digits;
      ScanDigits(digits);
    }
  }

  lemma ScanSmall(digits: string, j: nat)
    requires Normalised(digits)
    ensures Scan(Start, "0" + (['.'] + (Zeros(j) + digits))) == Fraction(NatValue(digits), 0 - j - |digits|)
  {
    OneMoreZero(j, digits);
    LeadingZeros(j + 1, digits);
    ScanPointed("0", Zeros(j) + digits);
  }

  lemma OneMoreZero(j: nat, digits: string)
    ensures "0" + (Zeros(j) + digits) == Zeros(j + 1) + digits
  {
  }

  /** What reading the text yields before scaling. */
  function Reads(digits: string, n: int): Scaled
    requires AllDigits(digits)
  {
    var k := |digits|;
    if k <= n <= 21 then Scaled(Shifted(NatValue(digits), n - k), 0) else Scaled(NatValue(digits), n - k)
  }

  lemma ReadTextExactly(digits: string, n: int, t: string)
    requires Normalised(digits) && t == Text(digits, n)
    ensures ReadUnsigned(t) == Some(Reads(digits, n))
  {
    var k := |digits|;
    if k <= n <= 21 {
      ScanDigits(digits + Zeros(n - k));
      TrailingZeros(digits, n - k);
    } else if 0 < n <= 21 {
      ScanInside(digits, n, t);
    } else if -6 < n <= 0 {
      ScanSmall(digits, -n);
    } else {
      ScanLeading(digits);
      ScanExponential(Leading(digits), NatValue(digits), k, n, t);
    }
  }

  lemma ScanExponential(lead: string, m: nat, k: nat, n: int, t: string)
    requires k > 0 && Scan(Start, lead) == LeadingState(m, k) && t == lead + (['e'] + ExponentText(n - 1))
    ensures ReadUnsigned(t) == Some(Scaled(m, n - k))
  {
    LeadingScaled(m, k, n);
    ScanLarge(LeadingState(m, k), lead, n - 1, t);
  }

  lemma LeadingScaled(m: nat, k: nat, n: int)
    requires k > 0
    ensures var s := LeadingState(m, k);
      (s.Whole? || s.Fraction?) && Scaled(s.m, (if s.Whole? then 0 else s.e) + (n - 1)) == Scaled(m, n - k)
  {
  }

  lemma ScanInside(digits: string, n: nat, t: string)
    requires Normalised(digits) && 0 < n < |digits| && t == digits[..n] + (['.'] + digits[n..])
    ensures ReadUnsigned(t) == Some(Scaled(NatValue(digits), n - |digits|))
  {
    assert digits[..n] + digits[n..] == digits;
    ScanPointed(digits[..n], digits[n..]);
  }

  lemma SameAfterStrip(m: nat, k: nat, len: nat, n: int)
    requires k <= len
    ensures Same(if k <= n <= 21 then Scaled(Shifted(m, n - k), 0) else Scaled(m, n - k),
                 Scaled(Shifted(m, len - k), n - len))
  {
    if k <= n <= 21 {
      if n >= len {
        ShiftedTwice(m, len - k, n - len);
      } else {
        ShiftedTwice(m, n - k, len - n);
      }
    }
  }

  /** Reading gives the number the mantissa and its exponent stand for. */
  lemma ReadsValue(mantissa: string, n: int)
    requires mantissa != [] && AllDigits(mantissa) && mantissa[0] != '0'
    ensures AllDigits(Strip(mantissa))
    ensures Same(Reads(Strip(mantissa), n), Scaled(NatValue(mantissa), n - |mantissa|))
  {
    StripValue(mantissa);
    SameAfterStrip(NatValue(Strip(mantissa)), |Strip(mantissa)|, |mantissa|, n);
  }

  lemma StartsWithDigit(digits: string, n: int)
    requires Normalised(digits)
    ensures Text(digits, n) != [] && Text(digits, n)[0] != '-'
  {
    assert IsDigit(digits[0]);
  }

  lemma ReadSign(negative: bool, t: string, text: string)
    requires t != [] && t[0] != '-' && ReadUnsigned(t).Some? && text == Signed(negative, t)
    ensures ReadNumber(text) == Some(Reading(negative, ReadUnsigned(t).value))
  {
    if negative {
      assert ("-" + t)[1..] == t;
    }
  }

  lemma ReadSignedExactly(negative: bool, digits: string, n: int, text: string)
    requires Normalised(digits) && text == Signed(negative, Text(digits, n))
    ensures ReadNumber(text) == Some(Reading(negative, Reads(digits, n)))
  {
    var t := Text(digits, n);
    StartsWithDigit(digits, n);
    ReadTextExactly(digits, n, t);
    ReadSign(negative, t, text);
  }

  /** The text reads back as exactly mantissa * 10^(n - k), with its sign. */
  lemma ReadText(negative: bool, mantissa: string, n: int, text: string)
    requires mantissa != [] && AllDigits(mantissa) && mantissa[0] != '0'
    requires text == Signed(negative, Text(Strip(mantissa), n))
    ensures ReadsAs(text, negative, Scaled(NatValue(mantissa), n - |mantissa|))
  {
    StripValue(mantissa);
    ReadSignedExactly(negative, Strip(mantissa), n, text);
    ReadsValue(mantissa, n);
  }

  // ---------------------------------------------------------------------
  // Which form a number takes
  // ---------------------------------------------------------------------

  /** The four forms and where each begins and ends: an exponent exactly
      outside 10^-7 up to 10^21, a point after the n-th digit, or none. */
  lemma TextShape(digits: string, n: int, t: string)
    requires Normalised(digits) && t == Text(digits, n)
    ensures 'e' in t <==> n <= -6 || n > 21
    ensures |digits| <= n <= 21 ==>
      |t| == n && t[..|digits|] == digits && forall i :: |digits| <= i < n ==> t[i] == '0'
    ensures 0 < n < |digits| && n <= 21 ==> |t| == |digits| + 1 && t[n] == '.' && t[..n] + t[n + 1..] == digits
    ensures -6 < n <= 0 ==> |t| == 2 - n + |digits| && t[..2] == "0." && t[2 - n..] == digits
    ensures -6 < n <= 0 ==> forall i :: 2 <= i < 2 - n ==> t[i] == '0'
    ensures n <= -6 || n > 21 ==> ExponentForm(digits, n, t)
  {
    var k := |digits|;
    assert forall i :: 0 <= i < |digits| ==> IsDigit(digits[i]);
    if k <= n <= 21 {
    } else if 0 < n <= 21 {
    } else if -6 < n <= 0 {
    } else {
      ExponentShape(digits, n, t);
    }
  }

  /** The first digit, the others behind a point if there are any, then the
      exponent n - 1 with its sign. */
  ghost predicate ExponentForm(digits: string, n: int, t: string) {
    exists p: nat :: ExponentAt(digits, n, t, p)
  }

  predicate ExponentAt(digits: string, n: int, t: string, p: nat) {
    p + 1 < |t| && t[p] == 'e' && MantissaForm(digits, t[..p]) &&
    t[p + 1] == (if n > 0 then '+' else '-') && t[p + 2..] == NatText(if n > 0 then n - 1 else 1 - n)
  }

  predicate MantissaForm(digits: string, m: string) {
    if |digits| <= 1 then m == digits else |m| == |digits| + 1 && m[1] == '.' && m[..1] + m[2..] == digits
  }

  lemma ExponentShape(digits: string, n: int, t: string)
    requires digits != [] && t == Leading(digits) + (['e'] + ExponentText(n - 1))
    ensures ExponentForm(digits, n, t)
  {
    var p := |Leading(digits)|;
    assert t[..p] == Leading(digits);
    assert t[p] == 'e';
    assert t[p + 1..] == ExponentText(n - 1);
    assert t[p + 2..] == ExponentText(n - 1)[1..];
    assert |digits| > 1 ==> Leading(digits)[..1] + Leading(digits)[2..] == digits;
    assert MantissaForm(digits, t[..p]);
    assert t[p + 1] == ExponentText(n - 1)[0];
    assert ExponentText(n - 1)[1..] == NatText(if n > 0 then n - 1 else 1 - n);
    assert ExponentAt(digits, n, t, p);
  }

  // ---------------------------------------------------------------------
  // Distinct numbers print differently
  // ---------------------------------------------------------------------

  lemma LastDigit(digits: string)
    requires Normalised(digits)
    ensures NatValue(digits) % 10 != 0
  {
    NonzeroDigit(digits[|digits| - 1], NatValue(digits[..|digits| - 1]));
  }

  lemma NonzeroDigit(c: char, m: nat)
    requires IsDigit(c) && c != '0'
    ensures (10 * m + DigitValue(c)) % 10 != 0
  {
    assert DigitValue(c) != 0;
  }

  lemma {:induction false} PositiveValue(digits: string)
    requires digits != [] && AllDigits(digits) && digits[0] != '0'
    ensures NatValue(digits) > 0
  {
    if |digits| > 1 {
      PositiveValue(digits[..|digits| - 1]);
    } else {
      assert digits[..0] == [] && IsDigit(digits[0]);
    }
  }

  lemma DigitsFromValue(a: char, b: char)
    requires IsDigit(a) && IsDigit(b) && DigitValue(a) == DigitValue(b)
    ensures a == b
  {
  }

  /** Digit strings without leading zeros are determined by their value. */
  lemma {:induction false} DigitsInjective(a: string, b: string)
    requires AllDigits(a) && AllDigits(b) && NatValue(a) == NatValue(b)
    requires (a != [] ==> a[0] != '0') && (b != [] ==> b[0] != '0')
    ensures a == b
    decreases |a|
  {
    if a == [] {
      if b != [] {
        PositiveValue(b);
      }
    } else if b == [] {
      PositiveValue(a);
    } else {
      var m, n := |a| - 1, |b| - 1;
      DigitsFromValue(a[m], b[n]);
      DigitsInjective(a[..m], b[..n]);
      assert a == a[..m] + [a[m]] && b == b[..n] + [b[n]];
    }
  }

  /** Different digits, exponents or signs never print alike. */
  lemma TextInjective(negative: bool, d: string, n: int, negative': bool, d': string, n': int)
    requires Normalised(d) && Normalised(d')
    requires Signed(negative, Text(d, n)) == Signed(negative', Text(d', n'))
    ensures negative == negative' && d == d' && n == n'
  {
    var t := Signed(negative, Text(d, n));
    ReadSignedExactly(negative, d, n, t);
    ReadSignedExactly(negative', d', n', t);
    LastDigit(d);
    LastDigit(d');
    ReadsUnique(d, n, d', n');
  }

  lemma ReadsUnique(d: string, n: int, d': string, n': int)
    requires Normalised(d) && Normalised(d') && Reads(d, n) == Reads(d', n')
    requires NatValue(d) % 10 != 0 && NatValue(d') % 10 != 0
    ensures d == d' && n == n'
  {
    var j, j' := if |d| <= n <= 21 then n - |d| else 0, if |d'| <= n' <= 21 then n' - |d'| else 0;
    ShiftedUnique(NatValue(d), j, NatValue(d'), j');
    DigitsInjective(d, d');
  }
}
