/** Exact decimal numbers, standing for Python's `decimal.Decimal` (and, in
    the USAA converter, for `float`), over the literal grammar
    `[+|-] ( digits [ "." [digits] ] | "." digits )`, and the rounding of
    arithmetic results to the default context. */
module Decimals {

  import opened Wrappers
  import opened Text

  /** The number units / 10^scale, as `Decimal` keeps a coefficient and an exponent. */
  datatype Decimal = Decimal(units: int, scale: nat)

  /** The exact numeric value; `Decimal` equality compares these values. */
  function Value(d: Decimal): real
  {
    d.units as real / Pow10(d.scale) as real
  }

  /** `-1 * d`. */
  function Neg(d: Decimal): (r: Decimal)
    ensures Value(r) == -Value(d)
    ensures r.scale == d.scale
  {
    Decimal(-d.units, d.scale)
  }

  /** `Decimal(s)`: None where Python raises `decimal.InvalidOperation`
      (and `float(s)` raises `ValueError`). */
  function Parse(s: string): Option<Decimal>
  {
    if |s| > 0 && s[0] == '-' then
      match Unsigned(s[1..]) case None => None case Some(d) => Some(Neg(d))
    else if |s| > 0 && s[0] == '+' then Unsigned(s[1..])
    else Unsigned(s)
  }

  /** An unsigned literal `whole[.frac]` or `.frac`. */
  function Unsigned(body: string): Option<Decimal>
  {
    var dot := IndexOf(body, '.');
    var whole := body[..dot];
    var frac := if dot < |body| then body[dot + 1..] else "";
    if AllDigits(whole) && AllDigits(frac) && |whole| + |frac| > 0
    then Some(Decimal(Shifted(whole, frac), |frac|))
    else None
  }

  /** The integer whole ++ frac, computed without concatenating. */
  function Shifted(whole: string, frac: string): nat
    requires AllDigits(whole) && AllDigits(frac)
  {
    DigitsValue(whole) * Pow10(|frac|) + DigitsValue(frac)
  }

  /** The plain literal of a non-negative decimal: its digits, with a '.'
      before the last `scale` of them when the scale is not zero. */
  function Format(d: Decimal): (s: string)
    requires d.units >= 0
    ensures |s| >= 1 && IsDigit(s[0])
  {
    var ds := PadLeft(NatDigits(d.units), d.scale + 1);
    if d.scale == 0 then ds else ds[..|ds| - d.scale] + "." + ds[|ds| - d.scale..]
  }

  /** Every non-negative decimal is read back exactly from its literal. */
  lemma ParseFormat(d: Decimal)
    requires d.units >= 0
    ensures Parse(Format(d)) == Some(d)
  {
    if d.scale == 0 {
      ParseFormatWhole(d);
    } else {
      ParseFormatScaled(d);
    }
  }

  lemma ParseFormatWhole(d: Decimal)
    requires d.units >= 0 && d.scale == 0
    ensures Parse(Format(d)) == Some(d)
  {
    var ds := PadLeft(NatDigits(d.units), 1);
    FormatDigits(d);
    var s := Format(d);
    assert s == ds;
    ParseUndotted(ds);
  }

  lemma ParseFormatScaled(d: Decimal)
    requires d.units >= 0 && d.scale > 0
    ensures Parse(Format(d)) == Some(d)
  {
    var ds := PadLeft(NatDigits(d.units), d.scale + 1);
    FormatDigits(d);
    var k := |ds| - d.scale;
    var s := Format(d);
    assert s == ds[..k] + "." + ds[k..];
    ParseSplitDigits(ds, k);
  }

  /** The digits of a literal, padded to more than `scale` of them, spell its units. */
  lemma FormatDigits(d: Decimal)
    requires d.units >= 0
    ensures var ds := PadLeft(NatDigits(d.units), d.scale + 1);
      AllDigits(ds) && DigitsValue(ds) == d.units && |ds| > d.scale
  {
    NatDigitsValue(d.units);
    PadLeftValue(NatDigits(d.units), d.scale + 1);
  }

  /** A digit string with a '.' put in before its last |ds| - k digits. */
  lemma ParseSplitDigits(ds: string, k: nat)
    requires 1 <= k <= |ds| && AllDigits(ds)
    ensures Parse(ds[..k] + "." + ds[k..]) == Some(Decimal(DigitsValue(ds), |ds| - k))
  {
    var whole, frac := ds[..k], ds[k..];
    assert whole + frac == ds;
    assert AllDigits(whole) && AllDigits(frac);
    ParseDotted(whole, frac);
  }

  /** The literal `whole.frac` of unsigned digit strings denotes
      (whole ++ frac) / 10^|frac|. */
  lemma ParseDotted(whole: string, frac: string)
    requires AllDigits(whole) && AllDigits(frac) && |whole| >= 1
    ensures AllDigits(whole + frac)
    ensures Parse(whole + "." + frac) == Some(Decimal(DigitsValue(whole + frac), |frac|))
  {
    DigitsValueAppend(whole, frac);
    var s := whole + "." + frac;
    assert s[0] == whole[0] && IsDigit(s[0]);
    assert Parse(s) == Unsigned(s);
    UnsignedDotted(whole, frac);
    assert Shifted(whole, frac) == DigitsValue(whole + frac);
  }

  /** A plain digit string denotes its value. */
  lemma ParseUndotted(whole: string)
    requires AllDigits(whole) && |whole| >= 1
    ensures Parse(whole) == Some(Decimal(DigitsValue(whole), 0))
  {
    assert whole[0] != '-' && whole[0] != '+';
    assert IndexOf(whole, '.') == |whole|;
    assert whole[..|whole|] == whole;
    assert Shifted(whole, "") == DigitsValue(whole);
  }

  lemma UnsignedDotted(whole: string, frac: string)
    requires AllDigits(whole) && AllDigits(frac) && |whole| + |frac| > 0
    ensures Unsigned(whole + "." + frac) == Some(Decimal(Shifted(whole, frac), |frac|))
  {
    var s := whole + "." + frac;
    assert s[|whole|] == '.';
    forall j | 0 <= j < |whole| ensures s[j] != '.' { assert s[j] == whole[j]; }
    assert IndexOf(s, '.') == |whole|;
    assert s[..|whole|] == whole;
    assert s[|whole| + 1..] == frac;
  }

  /** A leading '-' negates an unsigned literal, whatever the literal is. */
  lemma ParseMinus(t: string)
    requires |t| == 0 || (t[0] != '+' && t[0] != '-')
    ensures Parse("-" + t) == match Parse(t) case None => None case Some(d) => Some(Neg(d))
  {
    assert ("-" + t)[1..] == t;
  }

  /** A literal with a character outside the grammar, such as '$', is refused. */
  lemma ParseRefusesDollar(t: string)
    ensures Parse("$" + t) == None
  {
    var s := "$" + t;
    var dot := IndexOf(s, '.');
    assert s[0] == '$';
    assert dot > 0;
    assert s[..dot][0] == '$';
  }

  // ---------------------------------------------------------------------------
  // The default arithmetic context
  // ---------------------------------------------------------------------------

  /** `decimal.DefaultContext`: 28 significant digits, ROUND_HALF_EVEN,
      Emax 999999 and Emin -999999, with Overflow trapped and clamping off. */
  const Precision: nat := 28
  const EMax: int := 999999
  const EMin: int := -999999
  /** `Context.Etiny()` and `Context.Etop()`. */
  const ETiny: int := EMin - Precision + 1
  const ETop: int := EMax - Precision + 1

  /** The value of 10^28, so that bounds on a coefficient need not unfold Pow10. */
  lemma PrecisionLimit()
    ensures Pow10(Precision) == 10000000000000000000000000000
  {
    var p4 := Pow10(4);
    assert p4 == 10000;
    assert Pow10(8) == p4 * p4 by { Pow10Add(4, 4); }
    assert Pow10(16) == Pow10(8) * Pow10(8) by { Pow10Add(8, 8); }
    assert Pow10(28) == Pow10(16) * Pow10(8) * p4 by { Pow10Add(16, 12); Pow10Add(8, 4); }
  }

  lemma {:induction false} Pow10Add(a: nat, b: nat)
    ensures Pow10(a + b) == Pow10(a) * Pow10(b)
  {
    if a > 0 {
      Pow10Add(a - 1, b);
      assert Pow10(a + b) == 10 * Pow10(a - 1 + b);
    }
  }

  /** A number below 10^k has at most k digits. */
  lemma {:induction false} DigitsBelow(n: nat, k: nat)
    requires k >= 1 && n < Pow10(k)
    ensures |NatDigits(n)| <= k
  {
    if n >= 10 {
      DigitsBelow(n / 10, k - 1);
    }
  }

  /** A number of at least 10^k has more than k digits. */
  lemma {:induction false} DigitsAtLeast(n: nat, k: nat)
    requires n >= Pow10(k)
    ensures |NatDigits(n)| > k
  {
    if k > 0 {
      DigitsAtLeast(n / 10, k - 1);
    }
  }

  /** The quotient c / 10^k rounded half-even: up when the dropped part is
      more than half of 10^k, or exactly half with an odd quotient. */
  function RoundHalfEven(c: nat, k: nat): nat
    requires k >= 1
  {
    var p := Pow10(k);
    var q, r := c / p, c % p;
    if 2 * r > p || (2 * r == p && q % 2 == 1) then q + 1 else q
  }

  /** The rounded multiple of 10^k is a nearest one, and an even one in a tie. */
  lemma RoundHalfEvenNearest(c: nat, k: nat)
    requires k >= 1
    ensures var q, p := RoundHalfEven(c, k) as int, Pow10(k) as int;
      -p <= 2 * (c - q * p) <= p
      && (2 * (c - q * p) == p || 2 * (c - q * p) == -p ==> q % 2 == 0)
  {
    var p := Pow10(k);
    var q0, r := c / p, c % p;
    assert c == q0 * p + r;
    var q := RoundHalfEven(c, k);
    if q == q0 + 1 {
      assert c - q * p == r - p;
    } else {
      assert c - q * p == r;
    }
  }

  /** Decimal digits c with exponent e, kept as units / 10^scale: a positive
      exponent becomes trailing zeros of the units. */
  function FromTriple(c: nat, e: int): (r: Decimal)
    ensures r.units >= 0
  {
    if e >= 0 then Decimal(c * Pow10(e), 0) else Decimal(c, -e)
  }

  /** `Decimal._fix` under the default context for a non-negative coefficient
      c at exponent -scale: zero has its exponent raised to ETiny; otherwise
      Overflow past ETop, else rounding half-even to Precision digits or up
      to the exponent ETiny, with a carry to a new digit folded back. */
  function FixMagnitude(c: nat, scale: nat): Result<Decimal>
  {
    var exp: int := -(scale as int);
    if c == 0 then Ok(Decimal(0, if exp < ETiny then -ETiny else scale))
    else
      var expMin := |NatDigits(c)| + exp - Precision;
      if expMin > ETop then Err(Overflow)
      else
        var e := if expMin < ETiny then ETiny else expMin;
        if exp >= e then Ok(Decimal(c, scale))
        else
          var q := RoundHalfEven(c, e - exp);
          var carried := |NatDigits(q)| > Precision;
          var c', e' := if carried then q / 10 else q, if carried then e + 1 else e;
          if e' > ETop then Err(Overflow) else Ok(FromTriple(c', e'))
  }

  /** An arithmetic result fitted to the default context; the rounding acts
      on the magnitude and keeps the sign. */
  function Fix(d: Decimal): Result<Decimal>
  {
    var neg := d.units < 0;
    match FixMagnitude(if neg then -d.units else d.units, d.scale)
    case Err(e) => Err(e)
    case Ok(r) => Ok(if neg then Neg(r) else r)
  }

  /** `+1 * d` (negate false) or `-1 * d` (negate true): the exact product,
      which keeps d's coefficient and exponent, fitted to the context. */
  function TimesUnit(negate: bool, d: Decimal): Result<Decimal>
  {
    Fix(if negate then Neg(d) else d)
  }

  /** A result of at most Precision digits and exponent at least ETiny is
      left as it is. */
  lemma FixExact(d: Decimal)
    requires -(Pow10(Precision) as int) < d.units < Pow10(Precision) && d.scale <= -ETiny
    ensures Fix(d) == Ok(d)
  {
    var m := if d.units < 0 then -d.units else d.units;
    if m > 0 {
      DigitsBelow(m, Precision);
    }
  }

  /** Negating before or after fitting gives the same result. */
  lemma FixNeg(d: Decimal)
    ensures Fix(Neg(d)) == match Fix(d) case Err(e) => Err(e) case Ok(r) => Ok(Neg(r))
  {
    if d.units == 0 {
      assert Neg(d) == d;
    } else {
      assert Neg(Neg(d)) == d;
    }
  }

  /** A result of at most EMax digits never overflows. */
  lemma FixDefined(d: Decimal)
    requires (if d.units < 0 then |NatDigits(-d.units)| else |NatDigits(d.units)|) <= EMax
    ensures Fix(d).Ok?
  {
  }

  /** A whole number of Precision + 1 digits loses its last digit, rounded
      half-even; a carry to 10^28 gives the same value. */
  lemma FixOneDigitOver(u: nat)
    requires Pow10(Precision) <= u < Pow10(Precision + 1)
    ensures Fix(Decimal(u, 0)) == Ok(Decimal(RoundHalfEven(u, 1) * 10, 0))
  {
    DigitsAtLeast(u, Precision);
    DigitsBelow(u, Precision + 1);
    var q := RoundHalfEven(u, 1);
    assert q <= u / 10 + 1 by { assert Pow10(1) == 10; }
    assert u / 10 < Pow10(Precision) by { assert Pow10(Precision + 1) == 10 * Pow10(Precision); }
    if q >= Pow10(Precision) {
      DigitsAtLeast(q, Precision);
      assert q == Pow10(Precision);
      assert q % 10 == 0 by { assert Pow10(Precision) == 10 * Pow10(Precision - 1); }
      assert FromTriple(q / 10, 2) == Decimal(q * 10, 0) by { assert Pow10(2) == 100; }
    } else {
      DigitsBelow(q, Precision);
      assert FromTriple(q, 1) == Decimal(q * 10, 0) by { assert Pow10(1) == 10; }
    }
  }



  /** A coefficient below 10^9 at a scale of at most 9 is left as it is. */
  lemma FixSmall(d: Decimal)
    requires -1000000000 < d.units < 1000000000 && d.scale <= 9
    ensures Fix(d) == Ok(d) && TimesUnit(false, d) == Ok(d) && TimesUnit(true, d) == Ok(Neg(d))
  {
    PrecisionLimit();
    FixExact(d);
    FixExact(Neg(d));
  }

  /** A value and its negation fit together, to opposite values; a value of
      at most EMax digits always fits. */
  lemma FixNegCancels(d: Decimal)
    requires d.units >= 0
    ensures Fix(d).Ok? <==> Fix(Neg(d)).Ok?
    ensures |NatDigits(d.units)| <= EMax ==> Fix(d).Ok?
    ensures Fix(d).Ok? ==> Value(Fix(d).value) + Value(Fix(Neg(d)).value) == 0.0
  {
    FixNeg(d);
    if |NatDigits(d.units)| <= EMax {
      FixDefined(d);
    }
  }
}
