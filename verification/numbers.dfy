/** Numbers on the wire. A body's numeric attributes are Python floats that
    come from `float(token)` and go back out through `'%d'`, `'%s'` and `'%f'`.
    The model keeps them as exact decimals `mant * 10^exp` in a canonical
    form (no trailing zero in `mant`), so two decimals with the same value are
    the same datatype value. */
module Numbers {
  import opened Wrappers
  import opened Text

  /** The number `mant * 10^exp`. */
  datatype Decimal = Decimal(mant: int, exp: int)

  function Abs(n: int): nat {
    if n < 0 then -n else n
  }

  function Pow10(n: nat): (r: nat)
    ensures r > 0
  {
    if n == 0 then 1 else 10 * Pow10(n - 1)
  }

  lemma {:induction false} Pow10Add(a: nat, b: nat)
    ensures Pow10(a + b) == Pow10(a) * Pow10(b)
    decreases b
  {
    if b > 0 {
      Pow10Add(a, b - 1);
      calc {
        Pow10(a + b);
        10 * Pow10(a + b - 1);
        10 * (Pow10(a) * Pow10(b - 1));
        Pow10(a) * (10 * Pow10(b - 1));
        Pow10(a) * Pow10(b);
      }
    }
  }

  lemma {:induction false} Pow10Monotone(a: nat, b: nat)
    requires a <= b
    ensures Pow10(a) <= Pow10(b)
    decreases b - a
  {
    if a < b {
      Pow10Monotone(a, b - 1);
    }
  }

  lemma {:induction false} ScaleByTen(x: int, p: int)
    ensures x * (10 * p) == 10 * (x * p)
  {
  }

  /** The representation of a value with no trailing zero digit in the
      mantissa; zero is `Decimal(0, 0)`. */
  predicate Canonical(d: Decimal) {
    if d.mant == 0 then d.exp == 0 else d.mant % 10 != 0
  }

  /** The canonical representation of the same value: trailing zeros of the
      mantissa move into the exponent. */
  function Normalize(d: Decimal): (r: Decimal)
    ensures Canonical(r)
    ensures d.mant == 0 ==> r == Decimal(0, 0)
    decreases Abs(d.mant)
  {
    if d.mant == 0 then Decimal(0, 0)
    else if d.mant % 10 == 0 then Normalize(Decimal(d.mant / 10, d.exp + 1))
    else d
  }

  /** Normalizing keeps the value: only trailing zeros of the mantissa move
      into the exponent. */
  lemma {:induction false} NormalizeValue(d: Decimal)
    requires d.mant != 0
    ensures Normalize(d).exp >= d.exp && d.mant == Normalize(d).mant * Pow10(Normalize(d).exp - d.exp)
    decreases Abs(d.mant)
  {
    if d.mant % 10 == 0 {
      var q := d.mant / 10;
      assert d.mant == q * 10;
      NormalizeValue(Decimal(q, d.exp + 1));
      var r := Normalize(d);
      var k := r.exp - d.exp - 1;
      assert Pow10(k + 1) == 10 * Pow10(k);
      assert q == r.mant * Pow10(k);
      ScaleByTen(r.mant, Pow10(k));
    }
  }

  /** Normalizing a canonical decimal changes nothing, so normalizing twice
      is normalizing once. */
  lemma {:induction false} NormalizeCanonical(d: Decimal)
    requires Canonical(d)
    ensures Normalize(d) == d
  {
  }

  /** Scaling the mantissa by `10^k` while lowering the exponent by `k` keeps
      the value, so it keeps the canonical form. */
  lemma {:induction false} NormalizeShift(m: int, e: int, k: nat)
    ensures Normalize(Decimal(m * Pow10(k), e - k)) == Normalize(Decimal(m, e))
    decreases k
  {
    if k > 0 && m != 0 {
      var q := m * Pow10(k - 1);
      assert m * Pow10(k) == q * 10;
      assert q != 0;
      assert (q * 10) / 10 == q;
      NormalizeShift(m, e, k - 1);
    }
  }

  // ---------------------------------------------------------------------
  // Digit strings

  predicate IsDigit(c: char) {
    '0' <= c <= '9'
  }

  predicate AllDigits(s: string) {
    forall i :: 0 <= i < |s| ==> IsDigit(s[i])
  }

  function DigitValue(c: char): (v: nat)
    requires IsDigit(c)
    ensures v < 10
  {
    c as int - '0' as int
  }

  function DigitChar(n: nat): (c: char)
    requires n < 10
    ensures IsDigit(c) && DigitValue(c) == n
  {
    ('0' as int + n) as char
  }

  /** The value of a string of decimal digits, most significant first. */
  function DigitsValue(s: string): (v: nat)
    requires AllDigits(s)
    ensures v < Pow10(|s|)
  {
    if |s| == 0 then 0 else 10 * DigitsValue(s[..|s| - 1]) + DigitValue(s[|s| - 1])
  }

  lemma {:induction false} AllDigitsConcat(a: string, b: string)
    requires AllDigits(a) && AllDigits(b)
    ensures AllDigits(a + b)
  {
  }

  /** The value of the digits of `a` followed by those of `b`. */
  lemma {:induction false} DigitsValueConcat(a: string, b: string)
    requires AllDigits(a) && AllDigits(b)
    ensures AllDigits(a + b)
    ensures DigitsValue(a + b) == DigitsValue(a) * Pow10(|b|) + DigitsValue(b)
    decreases |b|
  {
    AllDigitsConcat(a, b);
    if |b| == 0 {
      assert a + b == a;
    } else {
      var b', last := b[..|b| - 1], b[|b| - 1];
      var ab := a + b;
      assert ab[..|ab| - 1] == a + b';
      assert ab[|ab| - 1] == last;
      DigitsValueConcat(a, b');
      ShiftDigit(DigitsValue(a), DigitsValue(b'), DigitValue(last), Pow10(|b'|));
    }
  }

  /** `n` zero digits. */
  function Zeros(n: nat): (r: string)
    ensures |r| == n && AllDigits(r)
  {
    seq(n, i => '0')
  }

  lemma {:induction false} ZerosValue(n: nat)
    ensures DigitsValue(Zeros(n)) == 0
    decreases n
  {
    if n > 0 {
      assert Zeros(n)[..n - 1] == Zeros(n - 1);
      ZerosValue(n - 1);
    }
  }

  /** Leading zeros do not change the value of a digit string. */
  lemma {:induction false} LeadingZeros(k: nat, s: string)
    requires AllDigits(s)
    ensures AllDigits(Zeros(k) + s) && DigitsValue(Zeros(k) + s) == DigitsValue(s)
  {
    DigitsValueConcat(Zeros(k), s);
    ZerosValue(k);
  }

  /** Trailing zeros multiply the value of a digit string by ten each. */
  lemma {:induction false} TrailingZeros(s: string, k: nat)
    requires AllDigits(s)
    ensures AllDigits(s + Zeros(k)) && DigitsValue(s + Zeros(k)) == DigitsValue(s) * Pow10(k)
  {
    DigitsValueConcat(s, Zeros(k));
    ZerosValue(k);
  }

  /** The decimal numeral of `n` as `str(n)` writes it: no sign, no leading
      zero, "0" for zero. */
  function NatToDigits(n: nat): (r: string)
    ensures |r| > 0 && AllDigits(r)
    ensures DigitsValue(r) == n
    ensures n > 0 ==> r[0] != '0'
    ensures |r| == 1 || Pow10(|r| - 1) <= n
  {
    if n < 10 then [DigitChar(n)]
    else
      var inner := NatToDigits(n / 10);
      var r := inner + [DigitChar(n % 10)];
      assert r[..|r| - 1] == inner;
      assert Pow10(|r| - 1) == 10 * Pow10(|inner| - 1);
      r
  }

  /** `NatToDigits(n)` left-padded with zeros to at least `width` digits,
      as `%06d` or the two-digit exponent of `repr` do. */
  function PadDigits(n: nat, width: nat): (r: string)
    ensures AllDigits(r) && DigitsValue(r) == n
    ensures |r| >= width && |r| > 0
    ensures 0 < width && n < Pow10(width) ==> |r| == width
  {
    var d := NatToDigits(n);
    if |d| < width then
      LeadingZeros(width - |d|, d);
      Zeros(width - |d|) + d
    else
      assert 0 < width && n < Pow10(width) ==> |d| <= width by {
        if 0 < width && n < Pow10(width) && |d| > width {
          Pow10Monotone(width, |d| - 1);
        }
      }
      d
  }

  // ---------------------------------------------------------------------
  // Python's float() on a token

  function SignText(negative: bool): string {
    if negative then "-" else ""
  }

  function Signed(negative: bool, n: nat): int {
    if negative then -(n as int) else n
  }

  /** Where `float()`'s reader stands inside a literal
      `[sign] digits [. digits] [(e|E) [sign] digits]`. */
  datatype Phase = Start | Sign | Whole | Fraction | Mark | ExpSign | ExpDigits | Reject

  /** What has been read so far: the sign, the integer formed by all
      mantissa digits, how many there are and how many of them follow the
      point, and the exponent's sign and value. */
  datatype Scan = Scan(phase: Phase, negative: bool, digits: nat, count: nat, scale: nat,
                       expNegative: bool, exponent: nat)

  const Init := Scan(Start, false, 0, 0, 0, false, 0)

  /** One mantissa character: a digit, the single point, or the exponent
      mark once at least one digit was read. */
  function StepMantissa(st: Scan, c: char): Scan {
    if IsDigit(c) then
      st.(phase := if st.phase == Fraction then Fraction else Whole,
          digits := 10 * st.digits + DigitValue(c), count := st.count + 1,
          scale := if st.phase == Fraction then st.scale + 1 else st.scale)
    else if c == '.' && st.phase != Fraction then st.(phase := Fraction)
    else if (c == 'e' || c == 'E') && st.count > 0 then st.(phase := Mark)
    else st.(phase := Reject)
  }

  /** One exponent digit. */
  function StepExponent(st: Scan, c: char): Scan {
    if IsDigit(c) then st.(phase := ExpDigits, exponent := 10 * st.exponent + DigitValue(c))
    else st.(phase := Reject)
  }

  function Step(st: Scan, c: char): Scan {
    match st.phase
    case Start =>
      if c == '+' || c == '-' then st.(phase := Sign, negative := c == '-') else StepMantissa(st, c)
    case Sign => StepMantissa(st, c)
    case Whole => StepMantissa(st, c)
    case Fraction => StepMantissa(st, c)
    case Mark =>
      if c == '+' || c == '-' then st.(phase := ExpSign, expNegative := c == '-') else StepExponent(st, c)
    case ExpSign => StepExponent(st, c)
    case ExpDigits => StepExponent(st, c)
    case Reject => st
  }

  /** The reader after consuming `s` from `st`, left to right. */
  function ScanFrom(st: Scan, s: string): Scan
    decreases |s|
  {
    if |s| == 0 then st else Step(ScanFrom(st, s[..|s| - 1]), s[|s| - 1])
  }

  /** Python's `float(token)` on a decimal literal: an optional sign, digits
      with at most one point (at least one digit in all), and an optional
      exponent `e`/`E` with optional sign and at least one digit. `None`
      stands for the ValueError raised on anything else. The result is the
      exact value, canonical. */
  function ParseNumber(t: string): (r: Option<Decimal>)
    ensures r.Some? ==> Canonical(r.value)
  {
    var st := ScanFrom(Init, t);
    if (st.phase == Whole || st.phase == Fraction || st.phase == ExpDigits) && st.count > 0 then
      Some(Normalize(Decimal(Signed(st.negative, st.digits), Signed(st.expNegative, st.exponent) - st.scale)))
    else
      None
  }

  /** Reading one more character after `s`. */
  lemma {:induction false} ScanSnoc(st: Scan, s: string, c: char)
    ensures ScanFrom(st, s + [c]) == Step(ScanFrom(st, s), c)
  {
    assert (s + [c])[..|s|] == s;
  }

  /** Reading `a + b` is reading `a`, then `b` from where `a` left off. */
  lemma {:induction false} ScanConcat(st: Scan, a: string, b: string)
    ensures ScanFrom(st, a + b) == ScanFrom(ScanFrom(st, a), b)
    decreases |b|
  {
    if |b| == 0 {
      assert a + b == a;
    } else {
      var b', c := b[..|b| - 1], b[|b| - 1];
      assert a + b == (a + b') + [c];
      assert b == b' + [c];
      ScanConcat(st, a, b');
      ScanSnoc(st, a + b', c);
      ScanSnoc(ScanFrom(st, a), b', c);
    }
  }

  lemma {:induction false} ScanChar(st: Scan, c: char)
    ensures ScanFrom(st, [c]) == Step(st, c)
  {
    ScanSnoc(st, [], c);
    assert [] + [c] == [c];
  }

  /** Appending a digit to `d` scales what was read so far by ten. */
  lemma {:induction false} ScaleAppend(a: nat, d: string)
    requires AllDigits(d) && |d| > 0
    ensures AllDigits(d[..|d| - 1]) && IsDigit(d[|d| - 1])
    ensures 10 * (a * Pow10(|d| - 1) + DigitsValue(d[..|d| - 1])) + DigitValue(d[|d| - 1])
         == a * Pow10(|d|) + DigitsValue(d)
  {
    var d', c := d[..|d| - 1], d[|d| - 1];
    assert DigitsValue(d) == 10 * DigitsValue(d') + DigitValue(c);
    assert Pow10(|d|) == 10 * Pow10(|d'|);
    ShiftDigit(a, DigitsValue(d'), DigitValue(c), Pow10(|d'|));
  }

  lemma {:induction false} ShiftDigit(va: int, vb: int, d: int, p: int)
    ensures 10 * (va * p + vb) + d == va * (10 * p) + (10 * vb + d)
  {
  }

  lemma {:induction false} StepWholeDigit(st: Scan, c: char)
    requires st.phase == Start || st.phase == Sign || st.phase == Whole
    requires IsDigit(c)
    ensures Step(st, c) == st.(phase := Whole, digits := 10 * st.digits + DigitValue(c), count := st.count + 1)
  {
  }

  lemma {:induction false} StepFractionDigit(st: Scan, c: char)
    requires st.phase == Fraction && IsDigit(c)
    ensures Step(st, c) == st.(digits := 10 * st.digits + DigitValue(c), count := st.count + 1, scale := st.scale + 1)
  {
  }

  lemma {:induction false} StepExponentDigit(st: Scan, c: char)
    requires st.phase == Mark || st.phase == ExpSign || st.phase == ExpDigits
    requires IsDigit(c)
    ensures Step(st, c) == st.(phase := ExpDigits, exponent := 10 * st.exponent + DigitValue(c))
  {
  }

  /** Digits before the point accumulate into the mantissa. */
  lemma {:induction false} ScanWhole(st: Scan, d: string)
    requires st.phase == Start || st.phase == Sign || st.phase == Whole
    requires AllDigits(d) && |d| > 0
    ensures ScanFrom(st, d)
         == st.(phase := Whole, digits := st.digits * Pow10(|d|) + DigitsValue(d), count := st.count + |d|)
    decreases |d|
  {
    var d', c := d[..|d| - 1], d[|d| - 1];
    ScaleAppend(st.digits, d);
    if |d'| > 0 {
      ScanWhole(st, d');
      StepWholeDigit(ScanFrom(st, d'), c);
    } else {
      StepWholeDigit(st, c);
    }
  }

  /** Digits after the point accumulate into the mantissa and its scale. */
  lemma {:induction false} ScanFraction(st: Scan, d: string)
    requires st.phase == Fraction && AllDigits(d)
    ensures ScanFrom(st, d)
         == st.(digits := st.digits * Pow10(|d|) + DigitsValue(d), count := st.count + |d|, scale := st.scale + |d|)
    decreases |d|
  {
    if |d| > 0 {
      var d', c := d[..|d| - 1], d[|d| - 1];
      ScaleAppend(st.digits, d);
      ScanFraction(st, d');
      StepFractionDigit(ScanFrom(st, d'), c);
    }
  }

  /** Exponent digits accumulate into the exponent. */
  lemma {:induction false} ScanExponentDigits(st: Scan, d: string)
    requires st.phase == Mark || st.phase == ExpSign || st.phase == ExpDigits
    requires AllDigits(d) && |d| > 0
    ensures ScanFrom(st, d)
         == st.(phase := ExpDigits, exponent := st.exponent * Pow10(|d|) + DigitsValue(d))
    decreases |d|
  {
    var d', c := d[..|d| - 1], d[|d| - 1];
    ScaleAppend(st.exponent, d);
    if |d'| > 0 {
      ScanExponentDigits(st, d');
      StepExponentDigit(ScanFrom(st, d'), c);
    } else {
      StepExponentDigit(st, c);
    }
  }

  /** The reader after an optional minus sign. */
  lemma {:induction false} ScanSign(negative: bool)
    ensures ScanFrom(Init, SignText(negative)) == Init.(phase := if negative then Sign else Start, negative := negative)
  {
    if negative {
      ScanChar(Init, '-');
    }
  }

  /** The reader after `[-]whole`. */
  lemma {:induction false} ScanSignedWhole(negative: bool, whole: string)
    requires AllDigits(whole) && |whole| > 0
    ensures ScanFrom(Init, SignText(negative) + whole)
         == Init.(phase := Whole, negative := negative, digits := DigitsValue(whole), count := |whole|)
  {
    ScanConcat(Init, SignText(negative), whole);
    ScanSign(negative);
    ScanWhole(Init.(phase := if negative then Sign else Start, negative := negative), whole);
  }

  /** A literal the reader accepts has the value of what it read. */
  lemma {:induction false} ParseAccepts(t: string, st: Scan, negative: bool, digits: nat, exponent: int)
    requires ScanFrom(Init, t) == st
    requires (st.phase == Whole || st.phase == Fraction || st.phase == ExpDigits) && st.count > 0
    requires st.negative == negative && st.digits == digits
    requires Signed(st.expNegative, st.exponent) - st.scale == exponent
    ensures ParseNumber(t) == Some(Normalize(Decimal(Signed(negative, digits), exponent)))
  {
  }

  /** An explicit `+` in front of a literal that does not itself start
      with a sign changes nothing: `float("+7")` is `float("7")`, and
      `float("+")` fails as `float("")` does. */
  lemma {:induction false} PlusSignNeutral(t: string)
    requires |t| == 0 || (t[0] != '+' && t[0] != '-')
    ensures ParseNumber("+" + t) == ParseNumber(t)
  {
    ScanChar(Init, '+');
    if |t| == 0 {
      assert "+" + t == ['+'];
      assert ScanFrom(Init, t) == Init;
      assert ParseNumber("+" + t) == None == ParseNumber(t);
    } else {
      assert ScanFrom(Init, "+" + t) == ScanFrom(Init, t) by {
        var c, rest := t[0], t[1..];
        ScanConcat(Init, "+", [c]);
        ScanChar(Init.(phase := Sign), c);
        ScanChar(Init, c);
        StepAfterPlus(c);
        assert ScanFrom(Init, "+" + [c]) == ScanFrom(Init, [c]);
        assert "+" + t == ("+" + [c]) + rest;
        assert t == [c] + rest;
        ScanConcat(Init, "+" + [c], rest);
        ScanConcat(Init, [c], rest);
      }
    }
  }

  /** After a leading `+` the reader takes a mantissa character as it
      would at the start. */
  lemma StepAfterPlus(c: char)
    requires c != '+' && c != '-'
    ensures Step(Init.(phase := Sign), c) == Step(Init, c)
  {
  }

  /** `float()` of a literal without point or exponent, `[+|-]digits`. */
  lemma {:induction false} ParseInteger(negative: bool, digits: string)
    requires AllDigits(digits) && |digits| > 0
    ensures ParseNumber(SignText(negative) + digits)
         == Some(Normalize(Decimal(Signed(negative, DigitsValue(digits)), 0)))
    ensures ParseNumber("+" + digits) == Some(Normalize(Decimal(DigitsValue(digits), 0)))
  {
    ScanSignedWhole(negative, digits);
    ParseAccepts(SignText(negative) + digits,
                 Init.(phase := Whole, negative := negative, digits := DigitsValue(digits), count := |digits|),
                 negative, DigitsValue(digits), 0);
    ScanSignedWhole(false, digits);
    assert SignText(false) + digits == digits;
    ParseAccepts(digits, Init.(phase := Whole, digits := DigitsValue(digits), count := |digits|),
                 false, DigitsValue(digits), 0);
    PlusSignNeutral(digits);
  }

  /** The positional layout `[-]whole.fraction`. */
  function PositionalText(negative: bool, whole: string, fraction: string): string {
    SignText(negative) + whole + "." + fraction
  }

  /** The reader after `[-]whole.fraction`. */
  lemma {:induction false} ScanPositional(negative: bool, whole: string, fraction: string)
    requires AllDigits(whole) && AllDigits(fraction) && |whole| > 0
    ensures AllDigits(whole + fraction)
    ensures ScanFrom(Init, PositionalText(negative, whole, fraction))
         == Init.(phase := Fraction, negative := negative, digits := DigitsValue(whole + fraction),
                  count := |whole| + |fraction|, scale := |fraction|)
  {
    DigitsValueConcat(whole, fraction);
    var head := SignText(negative) + whole;
    var st := Init.(phase := Whole, negative := negative, digits := DigitsValue(whole), count := |whole|);
    ScanSignedWhole(negative, whole);
    ScanSnoc(Init, head, '.');
    ScanConcat(Init, head + ".", fraction);
    ScanFraction(st.(phase := Fraction), fraction);
  }

  /** `float()` of a positional literal `[-]whole.fraction`. */
  lemma {:induction false} ParsePositional(negative: bool, whole: string, fraction: string)
    requires AllDigits(whole) && AllDigits(fraction) && |whole| > 0
    ensures AllDigits(whole + fraction)
    ensures ParseNumber(PositionalText(negative, whole, fraction))
         == Some(Normalize(Decimal(Signed(negative, DigitsValue(whole + fraction)), -|fraction|)))
  {
    ScanPositional(negative, whole, fraction);
    ParseAccepts(PositionalText(negative, whole, fraction),
                 Init.(phase := Fraction, negative := negative, digits := DigitsValue(whole + fraction),
                       count := |whole| + |fraction|, scale := |fraction|),
                 negative, DigitsValue(whole + fraction), -|fraction|);
  }

  /** The sign character of `repr`'s exponent. */
  function ExponentSign(x: int): char {
    if x < 0 then '-' else '+'
  }

  /** The exponent of `repr`'s scientific layout: a sign, then at least two
      digits. */
  function ExponentText(x: int): string {
    [ExponentSign(x)] + PadDigits(Abs(x), 2)
  }

  /** Reading the exponent text after the mark yields the exponent. */
  lemma {:induction false} ScanExponentText(st: Scan, x: int)
    requires st.phase == Mark && st.exponent == 0
    ensures ScanFrom(st, ExponentText(x)) == st.(phase := ExpDigits, expNegative := x < 0, exponent := Abs(x))
  {
    var digits := PadDigits(Abs(x), 2);
    ScanConcat(st, [ExponentSign(x)], digits);
    ScanChar(st, ExponentSign(x));
    ScanExponentDigits(st.(phase := ExpSign, expNegative := x < 0), digits);
  }

  /** The mantissa part of the scientific layout: `whole`, then `.fraction`
      when the fraction is not empty. */
  function MantissaText(whole: string, fraction: string): string {
    if |fraction| > 0 then whole + "." + fraction else whole
  }

  /** The reader's state after the mantissa `[-]whole[.fraction]`. */
  function MantissaScan(negative: bool, whole: string, fraction: string): Scan
    requires AllDigits(whole + fraction)
  {
    Init.(phase := if |fraction| > 0 then Fraction else Whole, negative := negative,
          digits := DigitsValue(whole + fraction), count := |whole| + |fraction|, scale := |fraction|)
  }

  /** The reader after `[-]whole[.fraction]`. */
  lemma {:induction false} ScanMantissaText(negative: bool, whole: string, fraction: string)
    requires AllDigits(whole) && AllDigits(fraction) && |whole| > 0
    ensures AllDigits(whole + fraction)
    ensures ScanFrom(Init, SignText(negative) + MantissaText(whole, fraction)) == MantissaScan(negative, whole, fraction)
  {
    AllDigitsConcat(whole, fraction);
    if |fraction| > 0 {
      ScanMantissaPointed(negative, whole, fraction);
    } else {
      ScanMantissaWhole(negative, whole, fraction);
    }
  }

  lemma {:induction false} ScanMantissaPointed(negative: bool, whole: string, fraction: string)
    requires AllDigits(whole) && AllDigits(fraction) && |whole| > 0 && |fraction| > 0
    requires AllDigits(whole + fraction)
    ensures ScanFrom(Init, SignText(negative) + MantissaText(whole, fraction)) == MantissaScan(negative, whole, fraction)
  {
    ScanPositional(negative, whole, fraction);
    assert SignText(negative) + MantissaText(whole, fraction) == PositionalText(negative, whole, fraction);
  }

  lemma {:induction false} ScanMantissaWhole(negative: bool, whole: string, fraction: string)
    requires AllDigits(whole) && |whole| > 0 && |fraction| == 0
    requires AllDigits(whole + fraction)
    ensures ScanFrom(Init, SignText(negative) + MantissaText(whole, fraction)) == MantissaScan(negative, whole, fraction)
  {
    assert whole + fraction == whole;
    ScanSignedWhole(negative, whole);
  }

  /** A mantissa the reader accepts, then the mark, then an exponent the
      reader accepts. */
  lemma {:induction false} ScanMarked(head: string, tail: string, mantissa: Scan, final: Scan)
    requires ScanFrom(Init, head) == mantissa
    requires mantissa.phase == Whole || mantissa.phase == Fraction
    requires mantissa.count > 0
    requires ScanFrom(mantissa.(phase := Mark), tail) == final
    ensures ScanFrom(Init, head + "e" + tail) == final
  {
    ScanSnoc(Init, head, 'e');
    assert Step(mantissa, 'e') == mantissa.(phase := Mark);
    ScanConcat(Init, head + "e", tail);
  }

  /** The scientific layout `[-]d[.ddd]e±XX` of the digit string `digits`
      whose first digit stands before the point. */
  function ScientificText(negative: bool, digits: string, x: int): string
    requires |digits| > 0
  {
    SignText(negative) + MantissaText(digits[..1], digits[1..]) + "e" + ExponentText(x)
  }

  /** The reader after the scientific layout. */
  lemma {:induction false} ScanScientific(negative: bool, digits: string, x: int)
    requires AllDigits(digits) && |digits| > 0
    ensures ScanFrom(Init, ScientificText(negative, digits, x))
         == Init.(phase := ExpDigits, negative := negative, digits := DigitsValue(digits), count := |digits|,
                  scale := |digits| - 1, expNegative := x < 0, exponent := Abs(x))
  {
    var whole, fraction := digits[..1], digits[1..];
    assert whole + fraction == digits;
    ScanMantissaText(negative, whole, fraction);
    var mantissa := MantissaScan(negative, whole, fraction);
    ScanExponentText(mantissa.(phase := Mark), x);
    ScanMarked(SignText(negative) + MantissaText(whole, fraction), ExponentText(x), mantissa,
               mantissa.(phase := ExpDigits, expNegative := x < 0, exponent := Abs(x)));
  }

  /** `float()` of a scientific literal: the digits, scaled so that the
      first one is worth `10^x`. */
  lemma {:induction false} ParseScientific(negative: bool, digits: string, x: int)
    requires AllDigits(digits) && |digits| > 0
    ensures ParseNumber(ScientificText(negative, digits, x))
         == Some(Normalize(Decimal(Signed(negative, DigitsValue(digits)), x - (|digits| - 1))))
  {
    ScanScientific(negative, digits, x);
    ParseScientificScan(ScientificText(negative, digits, x), negative, digits, x);
  }

  /** A text the reader leaves in the scientific layout's final state is
      accepted with that layout's value. */
  lemma {:induction false} ParseScientificScan(t: string, negative: bool, digits: string, x: int)
    requires AllDigits(digits) && |digits| > 0
    requires ScanFrom(Init, t)
          == Init.(phase := ExpDigits, negative := negative, digits := DigitsValue(digits), count := |digits|,
                   scale := |digits| - 1, expNegative := x < 0, exponent := Abs(x))
    ensures ParseNumber(t) == Some(Normalize(Decimal(Signed(negative, DigitsValue(digits)), x - (|digits| - 1))))
  {
    SignedAbs(x);
    ParseAccepts(t, ScanFrom(Init, t), negative, DigitsValue(digits), x - (|digits| - 1));
  }

  lemma SignedAbs(x: int)
    ensures Signed(x < 0, Abs(x)) == x
  {
  }

  // ---------------------------------------------------------------------
  // '%d', '%f' and '%s' of a float

  lemma DivModParts(a: nat, p: nat)
    requires p > 0
    ensures a == (a / p) * p + a % p && a % p < p
  {
  }

  lemma SuccTimes(q: int, p: int)
    ensures (q + 1) * p == q * p + p
  {
  }

  /** Integer division: the largest multiple of `p` not above `a`, counted
      in `p`s. */
  function Quot(a: nat, p: nat): (q: nat)
    requires p > 0
    ensures q * p <= a < q * p + p
  {
    DivModParts(a, p);
    a / p
  }

  lemma MulSign(m: int, p: nat)
    requires p > 0
    ensures m * p == 0 || (m * p < 0 <==> m < 0)
  {
    if m < 0 {
      assert m * p == -((-m) * p);
    }
  }

  /** `a / p` rounded to the nearest integer, ties to the even neighbour. */
  function RoundHalfEven(a: nat, p: nat): (q: nat)
    requires p > 0
    ensures 2 * Abs(a - q * p) <= p
    ensures 2 * Abs(a - q * p) == p ==> q % 2 == 0
  {
    var q := Quot(a, p);
    var r := a - q * p;
    if 2 * r > p || (2 * r == p && q % 2 == 1) then
      SuccTimes(q, p);
      q + 1
    else
      q
  }

  /** `int(v)`: the value truncated toward zero. */
  function Trunc(d: Decimal): (t: int)
    ensures d.exp >= 0 ==> t == d.mant * Pow10(d.exp)
    ensures d.exp < 0 ==> Abs(t) * Pow10(-d.exp) <= Abs(d.mant) < (Abs(t) + 1) * Pow10(-d.exp)
    ensures t == 0 || (t < 0 <==> d.mant < 0)
  {
    if d.exp >= 0 then
      MulSign(d.mant, Pow10(d.exp));
      d.mant * Pow10(d.exp)
    else
      var p := Pow10(-d.exp);
      var q := Quot(Abs(d.mant), p);
      SuccTimes(q, p);
      if d.mant < 0 then -(q as int) else q
  }

  /** The value in millionths, rounded to the nearest integer with ties to
      even, as `%f` rounds before printing six decimals. */
  function RoundMicros(d: Decimal): (n: int)
    ensures d.exp >= -6 ==> n == d.mant * Pow10(d.exp + 6)
    ensures d.exp < -6 ==> 2 * Abs(Abs(d.mant) - Abs(n) * Pow10(-6 - d.exp)) <= Pow10(-6 - d.exp)
    ensures d.exp < -6 && 2 * Abs(Abs(d.mant) - Abs(n) * Pow10(-6 - d.exp)) == Pow10(-6 - d.exp)
            ==> Abs(n) % 2 == 0
    ensures n == 0 || (n < 0 <==> d.mant < 0)
  {
    if d.exp >= -6 then
      MulSign(d.mant, Pow10(d.exp + 6));
      d.mant * Pow10(d.exp + 6)
    else
      var a := RoundHalfEven(Abs(d.mant), Pow10(-6 - d.exp));
      if d.mant < 0 then -(a as int) else a
  }

  /** `'%d' % v`: the truncated value as a signed decimal integer. */
  function FormatInt(d: Decimal): string {
    var t := Trunc(d);
    SignText(t < 0) + NatToDigits(Abs(t))
  }

  /** The digits of `a` millionths before and after the point, the latter
      always six. */
  function MicrosParts(a: nat): (string, string) {
    var q := Quot(a, 1000000);
    (NatToDigits(q), PadDigits(a - q * 1000000, 6))
  }

  /** `'%f' % v`: sign, integer part, point, exactly six decimals. The sign
      is the value's own, so a negative value that rounds to zero still
      prints a minus. */
  function FormatFixed(d: Decimal): string {
    var p := MicrosParts(Abs(RoundMicros(d)));
    PositionalText(d.mant < 0, p.0, p.1)
  }

  /** Where the point goes when `repr` writes the digits `digits`, worth
      `digits * 10^exp`, positionally: at least one digit on each side,
      `.0` after an integer, `0.` and zeros before a small value. */
  function PointParts(digits: string, exp: int): (string, string)
    requires |digits| > 0
  {
    var x := |digits| - 1 + exp;
    if exp >= 0 then (digits + Zeros(exp), "0")
    else if x >= 0 then (digits[..x + 1], digits[x + 1..])
    else ("0", Zeros(-x - 1) + digits)
  }

  /** `repr` of the non-zero value `digits * 10^exp` with the given sign:
      positional when the decimal exponent `x` of the first digit lies in
      [-4, 16), scientific otherwise. */
  function ReprText(negative: bool, digits: string, exp: int): string
    requires |digits| > 0
  {
    var x := |digits| - 1 + exp;
    if -4 <= x < 16 then
      var p := PointParts(digits, exp);
      PositionalText(negative, p.0, p.1)
    else
      ScientificText(negative, digits, x)
  }

  /** `'%s' % v`, that is `repr(v)`: the shortest digits of the value, which
      are those of its canonical mantissa, laid out by `ReprText`; zero is
      `0.0`. */
  function FormatRepr(d: Decimal): string {
    var c := Normalize(d);
    if c.mant == 0 then "0.0" else ReprText(c.mant < 0, NatToDigits(Abs(c.mant)), c.exp)
  }

  /** Truncating a whole number read back as a decimal gives it again. */
  lemma TruncWhole(t: int)
    ensures Trunc(Normalize(Decimal(t, 0))) == t
  {
    if t != 0 {
      NormalizeValue(Decimal(t, 0));
    }
  }

  /** Rounding a number of millionths read back as a decimal to millionths
      gives it again. */
  lemma RoundMicrosWhole(n: int)
    ensures RoundMicros(Normalize(Decimal(n, -6))) == n
  {
    if n != 0 {
      NormalizeValue(Decimal(n, -6));
      var c := Normalize(Decimal(n, -6));
      Pow10Add(c.exp + 6, 0);
    }
  }

  // ---------------------------------------------------------------------
  // Reading printed numbers back

  /** Reading back `'%d' % v` gives `v` truncated toward zero. */
  lemma {:induction false} ParseFormatInt(d: Decimal)
    ensures ParseNumber(FormatInt(d)) == Some(Normalize(Decimal(Trunc(d), 0)))
  {
    var t := Trunc(d);
    ParseInteger(t < 0, NatToDigits(Abs(t)));
  }

  /** The two parts of `%f` spell out the millionths. */
  lemma {:induction false} MicrosPartsValue(a: nat)
    ensures AllDigits(MicrosParts(a).0) && AllDigits(MicrosParts(a).1)
    ensures |MicrosParts(a).0| > 0 && |MicrosParts(a).1| == 6
    ensures AllDigits(MicrosParts(a).0 + MicrosParts(a).1)
    ensures DigitsValue(MicrosParts(a).0 + MicrosParts(a).1) == a
  {
    var q := Quot(a, 1000000);
    var whole, fraction := NatToDigits(q), PadDigits(a - q * 1000000, 6);
    assert Pow10(6) == 1000000;
    DigitsValueConcat(whole, fraction);
  }

  /** Reading back `'%f' % v` gives `v` rounded to six decimals. */
  lemma {:induction false} ParseFormatFixed(d: Decimal)
    ensures ParseNumber(FormatFixed(d)) == Some(Normalize(Decimal(RoundMicros(d), -6)))
  {
    var n := RoundMicros(d);
    var p := MicrosParts(Abs(n));
    MicrosPartsValue(Abs(n));
    ParsePositional(d.mant < 0, p.0, p.1);
    assert Signed(d.mant < 0, Abs(n)) == n;
  }

  lemma SignedScale(negative: bool, n: nat, p: nat)
    ensures Signed(negative, n * p) == Signed(negative, n) * p
  {
  }

  /** The positional parts keep the value when the point is placed after
      trailing zeros: `digits` followed by `exp` zeros, then `.0`. */
  lemma {:induction false} PointPartsInteger(negative: bool, digits: string, exp: int)
    requires AllDigits(digits) && |digits| > 0 && exp >= 0
    ensures AllDigits(PointParts(digits, exp).0 + PointParts(digits, exp).1)
    ensures Normalize(Decimal(Signed(negative, DigitsValue(PointParts(digits, exp).0 + PointParts(digits, exp).1)),
                              -|PointParts(digits, exp).1|))
         == Normalize(Decimal(Signed(negative, DigitsValue(digits)), exp))
  {
    var both := digits + Zeros(exp) + "0";
    assert both == digits + Zeros(exp + 1);
    TrailingZeros(digits, exp + 1);
    SignedScale(negative, DigitsValue(digits), Pow10(exp + 1));
    NormalizeShift(Signed(negative, DigitsValue(digits)), exp, exp + 1);
  }

  /** ... when the point falls inside the digits. */
  lemma {:induction false} PointPartsInside(negative: bool, digits: string, exp: int)
    requires AllDigits(digits) && |digits| > 0 && exp < 0 && |digits| - 1 + exp >= 0
    ensures AllDigits(PointParts(digits, exp).0 + PointParts(digits, exp).1)
    ensures Normalize(Decimal(Signed(negative, DigitsValue(PointParts(digits, exp).0 + PointParts(digits, exp).1)),
                              -|PointParts(digits, exp).1|))
         == Normalize(Decimal(Signed(negative, DigitsValue(digits)), exp))
  {
    var x := |digits| - 1 + exp;
    assert digits[..x + 1] + digits[x + 1..] == digits;
  }

  /** ... and when `0.` and zeros precede the digits. */
  lemma {:induction false} PointPartsSmall(negative: bool, digits: string, exp: int)
    requires AllDigits(digits) && |digits| > 0 && |digits| - 1 + exp < 0
    ensures AllDigits(PointParts(digits, exp).1)
    ensures AllDigits(PointParts(digits, exp).0 + PointParts(digits, exp).1)
    ensures Normalize(Decimal(Signed(negative, DigitsValue(PointParts(digits, exp).0 + PointParts(digits, exp).1)),
                              -|PointParts(digits, exp).1|))
         == Normalize(Decimal(Signed(negative, DigitsValue(digits)), exp))
  {
    var x := |digits| - 1 + exp;
    LeadingZeros(-x - 1, digits);
    assert "0" + (Zeros(-x - 1) + digits) == Zeros(-x) + digits;
    LeadingZeros(-x, digits);
  }

  /** The positional parts spell out the value `digits * 10^exp`. */
  lemma {:induction false} PointPartsValue(negative: bool, digits: string, exp: int)
    requires AllDigits(digits) && |digits| > 0
    ensures AllDigits(PointParts(digits, exp).0) && AllDigits(PointParts(digits, exp).1)
    ensures |PointParts(digits, exp).0| > 0
    ensures AllDigits(PointParts(digits, exp).0 + PointParts(digits, exp).1)
    ensures Normalize(Decimal(Signed(negative, DigitsValue(PointParts(digits, exp).0 + PointParts(digits, exp).1)),
                              -|PointParts(digits, exp).1|))
         == Normalize(Decimal(Signed(negative, DigitsValue(digits)), exp))
  {
    if exp >= 0 {
      PointPartsInteger(negative, digits, exp);
    } else if |digits| - 1 + exp >= 0 {
      PointPartsInside(negative, digits, exp);
    } else {
      PointPartsSmall(negative, digits, exp);
    }
  }

  /** Reading back the positional layout of `digits * 10^exp`. */
  lemma {:induction false} ParsePointParts(negative: bool, digits: string, exp: int)
    requires AllDigits(digits) && |digits| > 0
    ensures ParseNumber(PositionalText(negative, PointParts(digits, exp).0, PointParts(digits, exp).1))
         == Some(Normalize(Decimal(Signed(negative, DigitsValue(digits)), exp)))
  {
    PointPartsValue(negative, digits, exp);
    ParsePositional(negative, PointParts(digits, exp).0, PointParts(digits, exp).1);
  }

  /** Reading back the `repr` layout of a non-zero value gives that value. */
  lemma ParseReprText(negative: bool, digits: string, exp: int)
    requires AllDigits(digits) && |digits| > 0
    ensures ParseNumber(ReprText(negative, digits, exp)) == Some(Normalize(Decimal(Signed(negative, DigitsValue(digits)), exp)))
  {
    if -4 <= |digits| - 1 + exp < 16 {
      ParseReprPositional(negative, digits, exp);
    } else {
      ParseReprScientific(negative, digits, exp);
    }
  }

  lemma ParseReprPositional(negative: bool, digits: string, exp: int)
    requires AllDigits(digits) && |digits| > 0 && -4 <= |digits| - 1 + exp < 16
    ensures ParseNumber(ReprText(negative, digits, exp)) == Some(Normalize(Decimal(Signed(negative, DigitsValue(digits)), exp)))
  {
    ParsePointParts(negative, digits, exp);
  }

  lemma ParseReprScientific(negative: bool, digits: string, exp: int)
    requires AllDigits(digits) && |digits| > 0 && !(-4 <= |digits| - 1 + exp < 16)
    ensures ParseNumber(ReprText(negative, digits, exp)) == Some(Normalize(Decimal(Signed(negative, DigitsValue(digits)), exp)))
  {
    assert ReprText(negative, digits, exp) == ScientificText(negative, digits, |digits| - 1 + exp);
    ParseScientific(negative, digits, |digits| - 1 + exp);
  }

  /** Reading back `'%s' % v` gives `v` exactly. */
  lemma {:induction false} ParseFormatRepr(d: Decimal)
    ensures ParseNumber(FormatRepr(d)) == Some(Normalize(d))
  {
    var c := Normalize(d);
    if c.mant == 0 {
      assert "0.0" == PositionalText(false, "0", "0");
      ParsePositional(false, "0", "0");
      assert "0" + "0" == Zeros(2);
      ZerosValue(2);
    } else {
      var digits := NatToDigits(Abs(c.mant));
      ParseReprText(c.mant < 0, digits, c.exp);
      assert Signed(c.mant < 0, DigitsValue(digits)) == c.mant;
      NormalizeCanonical(c);
    }
  }

  // ---------------------------------------------------------------------
  // Printed numbers are single lower-case tokens

  lemma DigitsPlain(s: string)
    requires AllDigits(s)
    ensures Plain(s)
  {
  }

  lemma SignPlain(negative: bool)
    ensures Plain(SignText(negative))
  {
  }

  lemma {:induction false} PositionalPlain(negative: bool, whole: string, fraction: string)
    requires AllDigits(whole) && AllDigits(fraction)
    ensures Plain(PositionalText(negative, whole, fraction))
  {
    SignPlain(negative);
    DigitsPlain(whole);
    DigitsPlain(fraction);
    PlainConcat(SignText(negative), whole);
    PlainConcat(SignText(negative) + whole, ".");
    PlainConcat(SignText(negative) + whole + ".", fraction);
  }

  lemma {:induction false} ScientificPlain(negative: bool, digits: string, x: int)
    requires AllDigits(digits) && |digits| > 0
    ensures Plain(ScientificText(negative, digits, x))
  {
    var whole, fraction := digits[..1], digits[1..];
    var mantissa := MantissaText(whole, fraction);
    if |fraction| > 0 {
      DigitsPlain(whole);
      DigitsPlain(fraction);
      PlainConcat(whole, ".");
      PlainConcat(whole + ".", fraction);
    } else {
      DigitsPlain(whole);
    }
    SignPlain(negative);
    PlainConcat(SignText(negative), mantissa);
    PlainConcat(SignText(negative) + mantissa, "e");
    DigitsPlain(PadDigits(Abs(x), 2));
    PlainConcat([ExponentSign(x)], PadDigits(Abs(x), 2));
    PlainConcat(SignText(negative) + mantissa + "e", ExponentText(x));
  }

  /** `'%d' % v` is one lower-case token. */
  lemma {:induction false} FormatIntPlain(d: Decimal)
    ensures |FormatInt(d)| > 0 && Plain(FormatInt(d))
  {
    var t := Trunc(d);
    SignPlain(t < 0);
    DigitsPlain(NatToDigits(Abs(t)));
    PlainConcat(SignText(t < 0), NatToDigits(Abs(t)));
  }

  /** `'%f' % v` is one lower-case token. */
  lemma {:induction false} FormatFixedPlain(d: Decimal)
    ensures |FormatFixed(d)| > 0 && Plain(FormatFixed(d))
  {
    var p := MicrosParts(Abs(RoundMicros(d)));
    MicrosPartsValue(Abs(RoundMicros(d)));
    PositionalPlain(d.mant < 0, p.0, p.1);
  }

  /** `'%s' % v` is one lower-case token. */
  lemma {:induction false} FormatReprPlain(d: Decimal)
    ensures |FormatRepr(d)| > 0 && Plain(FormatRepr(d))
  {
    var c := Normalize(d);
    if c.mant != 0 {
      var digits := NatToDigits(Abs(c.mant));
      var x := |digits| - 1 + c.exp;
      if -4 <= x < 16 {
        PointPartsValue(false, digits, c.exp);
        PositionalPlain(c.mant < 0, PointParts(digits, c.exp).0, PointParts(digits, c.exp).1);
      } else {
        ScientificPlain(c.mant < 0, digits, x);
      }
    }
  }
}
