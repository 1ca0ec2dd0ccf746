/** Signed fixed-point decimals: from text to an integer scaled by a power of
    ten, exactly, with long fractions cut toward zero. */
module FixedPoint {
  import opened Arithmetic
  import Bits
  import opened Text

  const TWO_TO_THE_32: nat := 0x1_0000_0000
  const TWO_TO_THE_255: int := 0x8000000000000000000000000000000000000000000000000000000000000000
  const TWO_TO_THE_256: int := 0x1_0000000000000000000000000000000000000000000000000000000000000000

  datatype ConfigError = Parse(key: string) | Range(key: string)

  datatype Parts = Parts(negative: bool, whole: string, frac: string)

  /** The text split at its sign and its first dot. */
  function SplitDecimal(value: string): Parts {
    var negative := value != [] && value[0] == '-';
    var body := if negative then value[1..] else value;
    match SplitOnce(body, '.')
    case Some((whole, frac)) => Parts(negative, whole, frac)
    case None => Parts(negative, body, "")
  }

  predicate WellFormed(value: string) {
    var p := SplitDecimal(value);
    (p.whole != [] || p.frac != []) && AllDigits(p.whole) && AllDigits(p.frac)
  }

  lemma ProductIsNatural(a: nat, b: nat)
    ensures a * b >= 0
  {
  }

  /** The number the text spells, times 10^decimals, cut toward zero. */
  function Magnitude(value: string, decimals: nat): nat
    requires WellFormed(value)
  {
    var p := SplitDecimal(value);
    ValueOfConcat(p.whole, p.frac);
    ProductIsNatural(DigitsValue(p.whole + p.frac), Pow10(decimals));
    Quotient(DigitsValue(p.whole + p.frac) * Pow10(decimals), Pow10(|p.frac|))
  }

  function Scaled(value: string, decimals: nat, key: string): Result<int, ConfigError> {
    if !WellFormed(value) then Err(Parse(key)) else Fit(SplitDecimal(value).negative, Magnitude(value, decimals), key)
  }

  /** A signed 256-bit number, if the magnitude fits. */
  function Fit(negative: bool, magnitude: int, key: string): Result<int, ConfigError> {
    if magnitude >= TWO_TO_THE_256 then Err(Parse(key))
    else if magnitude >= TWO_TO_THE_255 then Err(Range(key))
    else Ok(if negative then -magnitude else magnitude)
  }

  /** The fraction is so long that its length, cut to 32 bits, looks short. */
  predicate Wraps(frac: string, decimals: nat) {
    |frac| >= TWO_TO_THE_32 && |frac| % TWO_TO_THE_32 <= decimals
  }

  /** The magnitude the code arrives at. */
  function Reached(whole: string, frac: string, decimals: nat): nat
    requires AllDigits(whole) && AllDigits(frac)
  {
    ValueOfConcat(whole, frac);
    if Wraps(frac, decimals)
    then DigitsValue(whole + frac) * Pow10(decimals - |frac| % TWO_TO_THE_32)
    else Quotient(DigitsValue(whole + frac) * Pow10(decimals), Pow10(|frac|))
  }

  /** What the code makes of a text. */
  function Outcome(value: string, decimals: nat, key: string): Result<int, ConfigError> {
    var p := SplitDecimal(value);
    if WellFormed(value) then Fit(p.negative, Reached(p.whole, p.frac, decimals), key) else Err(Parse(key))
  }

  /** Parse `value` scaled by 10^decimals. */
  method ScaleDecimal(value: string, decimals: nat, key: string) returns (r: Result<int, ConfigError>)
    requires decimals < TWO_TO_THE_32
    ensures r == Outcome(value, decimals, key)
  {
    hide Reached, DigitsValue, AllDigits, SplitDecimal;
    var p := SplitDecimal(value);
    if p.whole == [] && p.frac == [] {
      return Err(Parse(key));
    }
    if !AllDigits(p.whole) || !AllDigits(p.frac) {
      return Err(Parse(key));
    }
    var composed := Compose(p.whole, p.frac, decimals);
    NoDigits();
    var raw := if composed == [] then "0" else composed;
    var unsigned: int := DigitsValue(raw);
    if unsigned >= TWO_TO_THE_256 {
      return Err(Parse(key));
    }
    if unsigned >= TWO_TO_THE_255 {
      return Err(Range(key));
    }
    return Ok(if p.negative then -unsigned else unsigned);
  }

  /** The digits of the scaled number: a short fraction padded with zeros, a long
      one cut. */
  method Compose(whole: string, frac: string, decimals: nat) returns (composed: string)
    requires AllDigits(whole) && AllDigits(frac)
    ensures AllDigits(composed) && DigitsValue(composed) == Reached(whole, frac, decimals)
  {
    hide Pow10, DigitsValue, Quotient, AllDigits;
    var fracLen := |frac| % TWO_TO_THE_32;
    composed := whole;
    if fracLen <= decimals {
      composed := composed + frac;
      for i := 0 to decimals - fracLen
        invariant composed == whole + frac + Zeros(i)
      {
        composed := composed + ['0'];
        assert Zeros(i) + ['0'] == Zeros(i + 1);
      }
      ZerosMultiply(whole, frac, decimals - fracLen);
      if !Wraps(frac, decimals) { PaddedIsExact(whole, frac, decimals); }
    } else {
      composed := composed + frac[..decimals];
      CutIsExact(whole, frac, decimals);
    }
  }

  /** The fraction's length wraps and some digit is not zero. */
  predicate Misread(value: string, decimals: nat)
    requires WellFormed(value)
  {
    var p := SplitDecimal(value);
    Wraps(p.frac, decimals) && DigitsValue(p.whole + p.frac) > 0
  }

  /** The code is exact unless the fraction's length wraps, a digit is not zero
      and the exact magnitude is one of 256 bits: the property fails in exactly
      those cases. */
  lemma ExactUnlessWrapped(value: string, decimals: nat, key: string)
    requires WellFormed(value)
    ensures
      Outcome(value, decimals, key) == Scaled(value, decimals, key)
      <==> !(Misread(value, decimals) && Magnitude(value, decimals) < TWO_TO_THE_256)
  {
    hide Pow10, DigitsValue, Quotient, AllDigits, SplitDecimal;
    var p := SplitDecimal(value);
    ValueOfConcat(p.whole, p.frac);
    if Wraps(p.frac, decimals) {
      var short := |p.frac| % TWO_TO_THE_32;
      WrappedIsLarger(DigitsValue(p.whole + p.frac), decimals, short, |p.frac| - short);
    }
  }

  /** In particular it is exact for every fraction of fewer than 2^32 digits. */
  lemma ShortFractionsAreExact(value: string, decimals: nat, key: string)
    requires WellFormed(value) && |SplitDecimal(value).frac| < 4_294_967_296
    ensures Outcome(value, decimals, key) == Scaled(value, decimals, key)
  {
    hide SplitDecimal, Magnitude, Outcome, Scaled;
    ExactUnlessWrapped(value, decimals, key);
  }

  /** Dropping `extra` digits from the count multiplies the result by at least
      ten. */
  lemma WrappedIsLarger(n: nat, decimals: nat, short: nat, extra: nat)
    requires short <= decimals && extra > 0
    ensures 10 * Quotient(n * Pow10(decimals), Pow10(short + extra)) <= n * Pow10(decimals - short)
    ensures n > 0 ==> n * Pow10(decimals - short) > 0
    ensures n == 0 ==> n * Pow10(decimals - short) == 0 == Quotient(n * Pow10(decimals), Pow10(short + extra))
  {
    hide Pow10, Quotient;
    var a, b, c := Pow10(decimals - short), Pow10(short), Pow10(extra - 1);
    Pow10Adds(decimals - short, short);
    Pow10Adds(short, extra);
    assert Pow10(extra) == 10 * c by { TenMore(extra); }
    var q := Quotient(n * Pow10(decimals), Pow10(short + extra));
    Cancel(q, n, a, b, c);
    SmallerFactor(1, a, n);
    if n == 0 { QuotientIs(0, Pow10(short + extra), 0); }
  }

  lemma TenMore(e: nat)
    requires e > 0
    ensures Pow10(e) == 10 * Pow10(e - 1)
  {
  }

  lemma Cancel(q: nat, n: nat, a: nat, b: nat, c: nat)
    requires b > 0 && c > 0 && q * (b * (10 * c)) <= n * (a * b)
    ensures 10 * q <= n * a
  {
    var x, y := 10 * q * c, n * a;
    Regroup(q, b, c);
    assert n * (a * b) == y * b;
    SmallerFactor(x, y, b);
    assert 10 * q <= x by { SmallerFactor(1, c, 10 * q); }
  }

  lemma Regroup(q: nat, b: nat, c: nat)
    ensures q * (b * (10 * c)) == 10 * q * c * b
  {
    assert b * (10 * c) == 10 * (b * c);
    assert q * (10 * (b * c)) == 10 * (q * (b * c));
    assert q * (b * c) == q * c * b;
  }

  lemma SmallerFactor(x: nat, y: nat, b: nat)
    ensures b > 0 && x * b <= y * b ==> x <= y
    ensures x <= y ==> b * x <= b * y
  {
    if x > y { assert x * b == y * b + (x - y) * b; }
    if x <= y { assert b * y == b * x + b * (y - x); }
  }

  /** Inputs where it fails: a fraction of one less zeros than some multiple of
      2^32, and a one. The exact value is zero at scale zero, and the code gives
      one. */
  lemma LongFractionIsMisread(digits: nat, key: string)
    requires digits > 0 && digits % 4_294_967_296 == 0
    ensures
      var frac := Zeros(digits - 1) + "1";
      var value := "0." + frac;
      && WellFormed(value) && Scaled(value, 0, key) == Ok(0)
      && Outcome(value, 0, key) == Ok(1)
  {
    hide Pow10, DigitsValue, Quotient, SplitDecimal;
    var frac := Zeros(digits - 1) + "1";
    var value := "0." + frac;
    ValueOfZeros(digits - 1);
    ValueOfConcat(Zeros(digits - 1), "1");
    ValueOfConcat("0", frac);
    OneDigit();
    assert value == "0" + ("." + frac) == "" + "0" + ("." + frac);
    SplitOfSpelling(value, false, "0", frac, true);
    TenMore(digits);
    QuotientIs(1, Pow10(digits), 0);
  }

  lemma OneDigit()
    ensures AllDigits("0") && AllDigits("1") && DigitsValue("0") == 0 && DigitsValue("1") == 1 && Pow10(0) == 1
  {
  }

  /* ----- Powers of ten ----- */

  function Zeros(n: nat): string {
    seq(n, _ => '0')
  }

  lemma NoDigits()
    ensures AllDigits("0") && AllDigits("") && DigitsValue("0") == DigitsValue("") == 0
  {
  }

  lemma {:induction false} Pow10Adds(a: nat, b: nat)
    ensures Pow10(a + b) == Pow10(a) * Pow10(b)
  {
    if a > 0 {
      Pow10Adds(a - 1, b);
      TimesTen(Pow10(a - 1), Pow10(b));
    }
  }

  lemma TimesTen(p: nat, q: nat)
    ensures 10 * (p * q) == 10 * p * q
  {
  }

  lemma {:induction false} ValueOfZeros(n: nat)
    ensures AllDigits(Zeros(n)) && DigitsValue(Zeros(n)) == 0
  {
    if n > 0 {
      ValueOfZeros(n - 1);
      assert Zeros(n)[..n - 1] == Zeros(n - 1);
    }
  }

  lemma ZerosMultiply(whole: string, frac: string, pad: nat)
    requires AllDigits(whole) && AllDigits(frac)
    ensures AllDigits(whole + frac) && AllDigits(whole + frac + Zeros(pad))
    ensures DigitsValue(whole + frac + Zeros(pad)) == DigitsValue(whole + frac) * Pow10(pad)
  {
    hide Pow10, DigitsValue;
    ValueOfConcat(whole, frac);
    ValueOfZeros(pad);
    ValueOfConcat(whole + frac, Zeros(pad));
  }

  /** Padding a short fraction multiplies exactly. */
  lemma PaddedIsExact(whole: string, frac: string, decimals: nat)
    requires AllDigits(whole) && AllDigits(frac) && |frac| <= decimals
    ensures AllDigits(whole + frac) && AllDigits(whole + frac + Zeros(decimals - |frac|))
    ensures DigitsValue(whole + frac + Zeros(decimals - |frac|))
         == Quotient(DigitsValue(whole + frac) * Pow10(decimals), Pow10(|frac|))
  {
    hide Pow10, DigitsValue, Quotient;
    var pad := decimals - |frac|;
    ZerosMultiply(whole, frac, pad);
    Pow10Adds(pad, |frac|);
    var n, a, b := DigitsValue(whole + frac), Pow10(pad), Pow10(|frac|);
    Reassociate(n, a, b);
    QuotientIs(n * Pow10(decimals), b, n * a);
  }

  lemma Reassociate(n: nat, a: nat, b: nat)
    ensures n * (a * b) == n * a * b
  {
  }

  /** Cutting a long fraction divides, dropping the remainder. */
  lemma CutIsExact(whole: string, frac: string, decimals: nat)
    requires AllDigits(whole) && AllDigits(frac) && decimals < |frac|
    ensures AllDigits(whole + frac) && AllDigits(whole + frac[..decimals])
    ensures DigitsValue(whole + frac[..decimals])
         == Quotient(DigitsValue(whole + frac) * Pow10(decimals), Pow10(|frac|))
  {
    hide Pow10, DigitsValue, Quotient;
    var kept, cut := whole + frac[..decimals], frac[decimals..];
    assert whole + frac == kept + cut;
    ValueOfConcat(kept, cut);
    ValueBound(cut);
    Pow10Adds(|cut|, decimals);
    ScaleDown(DigitsValue(whole + frac), DigitsValue(kept), DigitsValue(cut), Pow10(|cut|), Pow10(decimals));
  }

  lemma ScaleDown(n: nat, q: nat, r: nat, c: nat, d: nat)
    requires c > 0 && d > 0 && n == q * c + r && r < c
    ensures c * d > 0 && Quotient(n * d, c * d) == q
  {
    hide Quotient;
    assert n * d == q * (c * d) + r * d;
    assert r * d < c * d;
    QuotientIs(n * d, c * d, q);
  }

  /* ----- The language of the parser ----- */

  function Body(whole: string, frac: string, dot: bool): string {
    whole + (if dot then "." + frac else "")
  }

  function Spell(negative: bool, whole: string, frac: string, dot: bool): string {
    (if negative then "-" else "") + Body(whole, frac, dot)
  }

  /** An optional minus, digits, and at most one dot, with at least one digit. */
  predicate IsSpelling(value: string, negative: bool, whole: string, frac: string, dot: bool) {
    && value == Spell(negative, whole, frac, dot)
    && AllDigits(whole) && AllDigits(frac) && (!dot ==> frac == [])
    && (whole != [] || frac != [])
  }

  /** The parser reads a spelling as what was spelled. */
  lemma SplitOfSpelling(value: string, negative: bool, whole: string, frac: string, dot: bool)
    requires IsSpelling(value, negative, whole, frac, dot)
    ensures SplitDecimal(value) == Parts(negative, whole, frac)
  {
    hide SplitOnce, AllDigits, Body;
    var body := Body(whole, frac, dot);
    BodyHasNoSign(whole, frac, dot);
    assert (if negative then value[1..] else value) == body;
    SplitBody(whole, frac, dot);
  }

  lemma BodyHasNoSign(whole: string, frac: string, dot: bool)
    requires AllDigits(whole) && (!dot ==> frac == []) && (whole != [] || frac != [])
    ensures Body(whole, frac, dot) != [] && Body(whole, frac, dot)[0] != '-'
  {
    assert whole != [] ==> Body(whole, frac, dot)[0] == whole[0];
    assert whole == [] ==> Body(whole, frac, dot)[0] == '.';
  }

  lemma SplitBody(whole: string, frac: string, dot: bool)
    requires AllDigits(whole) && (!dot ==> frac == [])
    ensures SplitOnce(Body(whole, frac, dot), '.') == if dot then Some((whole, frac)) else None
    ensures !dot ==> Body(whole, frac, dot) == whole
  {
    hide SplitOnce;
    assert '.' !in whole;
    if dot {
      assert Body(whole, frac, dot) == whole + ['.'] + frac;
      SplitOnceAt(whole, '.', frac);
    } else {
      assert Body(whole, frac, dot) == whole;
    }
  }

  /** A text is accepted, short of overflow, exactly when it is a spelling. */
  lemma WellFormedIsSpelling(value: string)
    ensures WellFormed(value) <==> exists negative, whole, frac, dot :: IsSpelling(value, negative, whole, frac, dot)
  {
    hide SplitDecimal, IsSpelling, AllDigits;
    if WellFormed(value) { var dot := SpellingOf(value); }
    forall negative, whole, frac, dot | IsSpelling(value, negative, whole, frac, dot)
      ensures WellFormed(value)
    {
      SplitOfSpelling(value, negative, whole, frac, dot);
      SpellingHasDigits(value, negative, whole, frac, dot);
    }
  }

  lemma SpellingHasDigits(value: string, negative: bool, whole: string, frac: string, dot: bool)
    requires IsSpelling(value, negative, whole, frac, dot)
    ensures AllDigits(whole) && AllDigits(frac) && (whole != [] || frac != [])
  {
  }

  lemma SpellingOf(value: string) returns (dot: bool)
    requires WellFormed(value)
    ensures var p := SplitDecimal(value); IsSpelling(value, p.negative, p.whole, p.frac, dot)
  {
    hide AllDigits, SplitOnce;
    var p := SplitDecimal(value);
    var sign := if p.negative then "-" else "";
    var body := if p.negative then value[1..] else value;
    assert value == sign + body;
    dot := SplitOnce(body, '.').Some?;
    Associates(p.whole, ".", p.frac);
    if !dot { assert body == p.whole + ""; }
  }

  lemma Associates(a: string, b: string, c: string)
    ensures a + (b + c) == a + b + c
  {
  }

  /* ----- Printing ----- */

  /** `n` on exactly `width` digits. */
  function Padded(n: nat, width: nat): string {
    if width == 0 then "" else Padded(n / 10, width - 1) + [DigitChar(n % 10)]
  }

  lemma {:induction false} ValueOfPadded(n: nat, width: nat)
    requires n < Pow10(width)
    ensures |Padded(n, width)| == width && AllDigits(Padded(n, width)) && DigitsValue(Padded(n, width)) == n
  {
    if width > 0 {
      ValueOfPadded(n / 10, width - 1);
      assert Padded(n, width)[..width - 1] == Padded(n / 10, width - 1);
    }
  }

  function RenderScaled(v: int, decimals: nat): string {
    var n := if v < 0 then -v else v;
    var whole := Quotient(n, Pow10(decimals));
    Spell(v < 0, Decimal(whole), Padded(n - whole * Pow10(decimals), decimals), decimals > 0)
  }

  /** Every value of the type but its minimum is parsed back from its print. */
  lemma ScaledRoundTrip(v: int, decimals: nat, key: string)
    requires -TWO_TO_THE_255 < v < TWO_TO_THE_255 && decimals < TWO_TO_THE_32
    ensures Outcome(RenderScaled(v, decimals), decimals, key) == Ok(v)
  {
    hide Pow10, DigitsValue, Decimal, Quotient, SplitDecimal, AllDigits;
    var n := if v < 0 then -v else v;
    var ten := Pow10(decimals);
    var a := Quotient(n, ten);
    var b := n - a * ten;
    DecimalIsCanonical(a);
    ValueOfPadded(b, decimals);
    var value := RenderScaled(v, decimals);
    SplitOfSpelling(value, v < 0, Decimal(a), Padded(b, decimals), decimals > 0);
    ValueOfConcat(Decimal(a), Padded(b, decimals));
    QuotientIs(n * ten, ten, n);
  }

  /** The exact signed value of the text, scaled. */
  function Signed(value: string, decimals: nat): int
    requires WellFormed(value)
  {
    var m: int := Magnitude(value, decimals);
    if SplitDecimal(value).negative then -m else m
  }

  /** A text whose exact value the result type has is read as that value, if and
      only if the value is not the type's minimum and the text is not misread. */
  lemma ReadExactly(value: string, decimals: nat, key: string)
    requires WellFormed(value) && -TWO_TO_THE_255 <= Signed(value, decimals) < TWO_TO_THE_255
    ensures Outcome(value, decimals, key) == Ok(Signed(value, decimals))
       <==> Signed(value, decimals) != -TWO_TO_THE_255 && !Misread(value, decimals)
  {
    hide Outcome, Misread, Magnitude, SplitDecimal;
    ExactUnlessWrapped(value, decimals, key);
    if Signed(value, decimals) == -TWO_TO_THE_255 { MinimumIsRefused(value, decimals, key); }
  }

  /** The minimum is refused however it is written: its magnitude alone does not
      fit. */
  lemma MinimumIsRefused(value: string, decimals: nat, key: string)
    requires WellFormed(value) && Signed(value, decimals) == -TWO_TO_THE_255
    ensures Outcome(value, decimals, key)
         == Err(if Wraps(SplitDecimal(value).frac, decimals) then Parse(key) else Range(key))
  {
    hide Pow10, DigitsValue, Quotient, AllDigits, SplitDecimal;
    var p := SplitDecimal(value);
    if Wraps(p.frac, decimals) {
      var short := |p.frac| % TWO_TO_THE_32;
      ValueOfConcat(p.whole, p.frac);
      WrappedIsLarger(DigitsValue(p.whole + p.frac), decimals, short, |p.frac| - short);
    }
  }

  /** And the minimum can be written. */
  lemma MinimumHasASpelling()
    ensures WellFormed(RenderScaled(-TWO_TO_THE_255, 0))
    ensures Signed(RenderScaled(-TWO_TO_THE_255, 0), 0) == -TWO_TO_THE_255
  {
    hide DigitsValue, Decimal, Quotient;
    var n := TWO_TO_THE_255;
    assert Pow10(0) == 1;
    QuotientIs(n, 1, n);
    DecimalIsCanonical(n);
    SplitOfSpelling(RenderScaled(-n, 0), true, Decimal(n), "", false);
    assert Decimal(n) + "" == Decimal(n);
  }

  /* ----- Acceptance and every refusal ----- */

  /** A text comes to a number exactly when it is a spelling whose magnitude, as
      the code reaches it, is below 2^255; the number is that magnitude with the
      sign of the spelling. */
  lemma AcceptedExactly(value: string, decimals: nat, key: string, v: int)
    ensures Outcome(value, decimals, key) == Ok(v) <==>
              exists negative, whole, frac, dot ::
                IsSpelling(value, negative, whole, frac, dot) && AllDigits(whole) && AllDigits(frac)
                && Comes(negative, Reached(whole, frac, decimals), v)
  {
    hide IsSpelling, Reached, SplitDecimal, AllDigits;
    if WellFormed(value) {
      var dot := SpellingOf(value);
      var p := SplitDecimal(value);
      assert Outcome(value, decimals, key) == Ok(v) <==> Comes(p.negative, Reached(p.whole, p.frac, decimals), v);
    }
    forall negative, whole, frac, dot | IsSpelling(value, negative, whole, frac, dot)
      ensures WellFormed(value) && SplitDecimal(value) == Parts(negative, whole, frac)
    {
      SplitOfSpelling(value, negative, whole, frac, dot);
      SpellingHasDigits(value, negative, whole, frac, dot);
    }
  }

  predicate Comes(negative: bool, magnitude: nat, v: int) {
    magnitude < 0x8000000000000000000000000000000000000000000000000000000000000000
    && v == if negative then 0 - magnitude else magnitude
  }

  /** Every other text is an error: of range, exactly for a spelling whose magnitude
      has 256 bits, and of parsing otherwise. */
  lemma RefusedExactly(value: string, decimals: nat, key: string)
    ensures Outcome(value, decimals, key) == Err(Range(key)) <==>
              WellFormed(value)
              && var p := SplitDecimal(value);
                 0x8000000000000000000000000000000000000000000000000000000000000000
                   <= Reached(p.whole, p.frac, decimals)
                   < 0x1_0000000000000000000000000000000000000000000000000000000000000000
    ensures Outcome(value, decimals, key).Err? ==>
              Outcome(value, decimals, key).error == Range(key) || Outcome(value, decimals, key).error == Parse(key)
    ensures !WellFormed(value) ==> Outcome(value, decimals, key) == Err(Parse(key))
  {
    hide Reached, SplitDecimal;
  }

  /** The two bounds are the powers of two they are named for. */
  lemma BoundsArePowers()
    ensures TWO_TO_THE_255 == Bits.Pow2(255) && TWO_TO_THE_256 == Bits.Pow2(256)
  {
    assert Bits.Pow2(2) == 4 by { assert Bits.Pow2(0) == 1; }
    hide Bits.Pow2;
    Squares(2, 4);
    Squares(4, 0x10);
    Squares(8, 0x100);
    Squares(16, 0x1_0000);
    Squares(32, 0x1_0000_0000);
    Squares(64, 0x1_0000_0000_0000_0000);
    Squares(128, 0x1_0000_0000_0000_0000_0000_0000_0000_0000);
    Halves(256);
  }

  lemma Squares(k: nat, n: nat)
    requires Bits.Pow2(k) == n
    ensures Bits.Pow2(2 * k) == n * n
  {
    hide Bits.Pow2;
    Pow2Adds(k, k);
    assert k + k == 2 * k;
  }

  lemma Halves(k: nat)
    requires k > 0
    ensures Bits.Pow2(k) == 2 * Bits.Pow2(k - 1)
  {
  }

  lemma {:induction false} Pow2Adds(a: nat, b: nat)
    ensures Bits.Pow2(a + b) == Bits.Pow2(a) * Bits.Pow2(b)
  {
    if a > 0 {
      Pow2Adds(a - 1, b);
      TimesTwo(Bits.Pow2(a - 1), Bits.Pow2(b));
    }
  }

  lemma TimesTwo(p: nat, q: nat)
    ensures 2 * (p * q) == 2 * p * q
  {
  }
}
