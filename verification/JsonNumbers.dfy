/** Numbers (section 6 of RFC 8259): their texts, their values, and what the parser reads. */
module JsonNumbers {
  import opened JsonGaps
  import opened JsonSyntax
  import opened JsonText
  import opened JsonValue
  import opened Occurrence

  datatype Exponential = NoExponent | Exponential(mark: char, sign: string, digits: string)

  datatype Number = Number(negative: bool, whole: string, fraction: string, exponent: Exponential)

  predicate Digits(w: string) {
    forall k :: 0 <= k < |w| ==> IsDigit(w[k])
  }

  predicate ExponentFits(e: Exponential) {
    e.Exponential? ==>
      && IsExponentMark(e.mark) && (e.sign == "" || (|e.sign| == 1 && IsSign(e.sign[0])))
      && e.digits != "" && Digits(e.digits)
  }

  /** No leading zeros, and digits behind a point or an exponent mark. */
  predicate NumberFits(n: Number) {
    && n.whole != "" && Digits(n.whole) && (n.whole[0] == '0' ==> |n.whole| == 1)
    && Digits(n.fraction) && ExponentFits(n.exponent)
  }

  type JsonNumber = n: Number | NumberFits(n) witness Number(false, "0", "", NoExponent)

  function MinusText(n: Number): string {
    if n.negative then "-" else ""
  }

  function FractionText(n: Number): string {
    if n.fraction == "" then "" else "." + n.fraction
  }

  function ExponentText(e: Exponential): string {
    match e
    case NoExponent => ""
    case Exponential(mark, sign, digits) => [mark] + sign + digits
  }

  function NumberText(n: Number): string {
    MinusText(n) + n.whole + FractionText(n) + ExponentText(n.exponent)
  }

  // ---- Values ----

  /** The value of decimal digits behind a leading part worth `acc`. */
  function Decimal(w: string, acc: nat): nat
    requires Digits(w)
    decreases |w|
  {
    if w == "" then acc else Decimal(w[1..], 10 * acc + DigitValue(w[0]))
  }

  function ExponentValue(e: Exponential): int
    requires ExponentFits(e)
  {
    match e
    case NoExponent => 0
    case Exponential(_, sign, digits) => Signed(sign == "-", Decimal(digits, 0))
  }

  /** The number that is written. */
  function Worth(n: Number): real
    requires NumberFits(n)
  {
    Scale(Signed(n.negative, Decimal(n.fraction, Decimal(n.whole, 0))), ExponentValue(n.exponent) - |n.fraction|)
  }

  /** An integer of at most nine characters is kept as one; anything else is the nearest double. */
  function NumberValue(n: Number): Json
    requires NumberFits(n)
  {
    if n.fraction == "" && n.exponent.NoExponent? && |NumberText(n)| <= 9
    then Int(Signed(n.negative, Decimal(n.whole, 0)))
    else Double(nearest(Worth(n)))
  }

  // ---- Reading ----

  lemma {:induction false} DecimalReads(t: string, p: nat, w: string, acc: nat)
    requires Holds(t, p, w) && Digits(w)
    ensures forall k :: p <= k < p + |w| ==> IsDigit(t[k])
    ensures DigitsValue(t, p, p + |w|, acc) == Decimal(w, acc)
    decreases |w|
  {
    forall k | p <= k < p + |w|
      ensures IsDigit(t[k])
    {
      HoldsAt(t, p, w, k - p);
    }
    if w != "" {
      HoldsAt(t, p, w, 0);
      assert w == [w[0]] + w[1..];
      HoldsSplit(t, p, [w[0]], w[1..]);
      DecimalReads(t, p + 1, w[1..], 10 * acc + DigitValue(w[0]));
    }
  }

  lemma {:induction false} DigitsEndReads(t: string, p: nat, w: string)
    requires Holds(t, p, w) && Digits(w) && !IsDigit(At(t, p + |w|))
    ensures DigitsEnd(t, p) == p + |w|
    decreases |w|
  {
    if w != "" {
      HoldsAt(t, p, w, 0);
      assert w == [w[0]] + w[1..];
      HoldsSplit(t, p, [w[0]], w[1..]);
      DigitsEndReads(t, p + 1, w[1..]);
    }
  }

  /** What may follow a number: no digit, no point and no exponent. */
  predicate Ends(c: char) {
    !IsDigit(c) && c != '.' && !IsExponentMark(c)
  }

  /** What ends this number: no digit, and no point or exponent that could still belong to it. */
  predicate EndsNumber(n: Number, c: char) {
    && !IsDigit(c)
    && (n.exponent.NoExponent? ==> !IsExponentMark(c))
    && (n.exponent.NoExponent? && n.fraction == "" ==> c != '.')
  }

  lemma EndsAny(n: Number, c: char)
    ensures Ends(c) ==> EndsNumber(n, c)
  {
  }

  lemma WholeReads(t: string, p: nat, w: string)
    requires Holds(t, p, w) && w != "" && Digits(w) && (w[0] == '0' ==> |w| == 1) && !IsDigit(At(t, p + |w|))
    ensures IntegerPart(t, p) == Ok(p + |w|, ())
  {
    HoldsAt(t, p, w, 0);
    if w[0] != '0' {
      assert w == [w[0]] + w[1..];
      HoldsSplit(t, p, [w[0]], w[1..]);
      DigitsEndReads(t, p + 1, w[1..]);
    }
  }

  lemma FractionReads(t: string, p: nat, n: Number)
    requires NumberFits(n) && Holds(t, p, FractionText(n))
    requires var c := At(t, p + |FractionText(n)|); !IsDigit(c) && (n.fraction == "" ==> c != '.')
    ensures Fraction(t, p) == Ok(p + |FractionText(n)|, ())
  {
    if n.fraction != "" {
      HoldsSplit(t, p, ".", n.fraction);
      HoldsAt(t, p, ".", 0);
      HoldsAt(t, p + 1, n.fraction, 0);
      DigitsEndReads(t, p + 1, n.fraction);
    }
  }

  lemma ExponentReads(t: string, p: nat, e: Exponential)
    requires ExponentFits(e) && Holds(t, p, ExponentText(e))
    requires var c := At(t, p + |ExponentText(e)|); !IsDigit(c) && (e.NoExponent? ==> !IsExponentMark(c))
    ensures Exponent(t, p) == Ok(p + |ExponentText(e)|, ExponentValue(e))
  {
    if e.Exponential? {
      HoldsSplit(t, p, [e.mark] + e.sign, e.digits);
      HoldsSplit(t, p, [e.mark], e.sign);
      HoldsAt(t, p, [e.mark], 0);
      var j := p + 1 + |e.sign|;
      HoldsAt(t, j, e.digits, 0);
      if e.sign != "" {
        HoldsAt(t, p + 1, e.sign, 0);
        assert e.sign == [e.sign[0]];
      }
      DigitsEndReads(t, j, e.digits);
      DecimalReads(t, j, e.digits, 0);
    }
  }

  lemma NumberParts(t: string, p: nat, n: Number)
    requires Holds(t, p, NumberText(n))
    ensures var j := p + |MinusText(n)|; var k := j + |n.whole|; var l := k + |FractionText(n)|;
            && Holds(t, p, MinusText(n)) && Holds(t, j, n.whole) && Holds(t, k, FractionText(n))
            && Holds(t, l, ExponentText(n.exponent)) && l + |ExponentText(n.exponent)| == p + |NumberText(n)|
  {
    HoldsSplit(t, p, MinusText(n) + n.whole + FractionText(n), ExponentText(n.exponent));
    HoldsSplit(t, p, MinusText(n) + n.whole, FractionText(n));
    HoldsSplit(t, p, MinusText(n), n.whole);
  }

  /** The characters that follow the parts of a number. */
  lemma BehindParts(t: string, p: nat, n: Number)
    requires NumberFits(n) && Holds(t, p, NumberText(n)) && EndsNumber(n, At(t, p + |NumberText(n)|))
    ensures var k := p + |MinusText(n)| + |n.whole|; var l := k + |FractionText(n)|;
            && k <= l <= |t| && !IsDigit(At(t, k)) && !IsDigit(At(t, l)) && (n.fraction == "" ==> At(t, l) != '.')
            && (At(t, k) == '.' <==> n.fraction != "")
            && (IsExponentMark(At(t, l)) <==> n.exponent.Exponential?)
  {
    NumberParts(t, p, n);
    var k := p + |MinusText(n)| + |n.whole|;
    var l := k + |FractionText(n)|;
    if n.exponent.Exponential? {
      HoldsAt(t, l, ExponentText(n.exponent), 0);
    }
    if n.fraction != "" {
      HoldsAt(t, k, FractionText(n), 0);
    }
  }

  /** A number is read with its value, wherever it stands. */
  lemma NumberReads(t: string, p: nat, n: Number)
    requires NumberFits(n) && Holds(t, p, NumberText(n)) && EndsNumber(n, At(t, p + |NumberText(n)|))
    ensures NumberAt(t, p) == Ok(p + |NumberText(n)|, NumberValue(n))
  {
    hide Digits, Decimal, Worth, ExponentFits, Exponent, Fraction, IntegerPart, RealAt;
    NumberParts(t, p, n);
    BehindParts(t, p, n);
    MinusReads(t, p, n);
    var j := p + |MinusText(n)|;
    WholeReads(t, j, n.whole);
    DecimalReads(t, j, n.whole, 0);
    RealReads(t, p, n);
  }

  lemma RealReads(t: string, p: nat, n: Number)
    requires NumberFits(n) && Holds(t, p, NumberText(n)) && EndsNumber(n, At(t, p + |NumberText(n)|))
    ensures var j := p + |MinusText(n)|; var k := j + |n.whole|;
            && k <= |t| && (forall i :: j <= i < k ==> IsDigit(t[i]))
            && RealAt(t, j, k, n.negative) == Ok(p + |NumberText(n)|, Double(nearest(Worth(n))))
  {
    hide Digits, Decimal, Scale, ExponentFits, Exponent, ExponentValue, ExponentText, Fraction;
    NumberParts(t, p, n);
    BehindParts(t, p, n);
    var j := p + |MinusText(n)|;
    var k := j + |n.whole|;
    DecimalReads(t, j, n.whole, 0);
    FractionReads(t, k, n);
    ExponentReads(t, k + |FractionText(n)|, n.exponent);
    FractionValue(t, k, n);
  }

  lemma MinusReads(t: string, p: nat, n: Number)
    requires NumberFits(n) && Holds(t, p, MinusText(n)) && Holds(t, p + |MinusText(n)|, n.whole)
    ensures At(t, p) == '-' <==> n.negative
  {
    HoldsAt(t, p + |MinusText(n)|, n.whole, 0);
    if n.negative {
      HoldsAt(t, p, MinusText(n), 0);
    }
  }

  lemma FractionValue(t: string, k: nat, n: Number)
    requires NumberFits(n) && Holds(t, k, FractionText(n))
    ensures forall i :: k < i < k + |FractionText(n)| ==> IsDigit(t[i])
    ensures n.fraction != "" ==>
              forall acc :: DigitsValue(t, k + 1, k + |FractionText(n)|, acc) == Decimal(n.fraction, acc)
    ensures n.fraction == "" ==> forall acc :: Decimal(n.fraction, acc) == acc
  {
    if n.fraction != "" {
      HoldsSplit(t, k, ".", n.fraction);
      DecimalReads(t, k + 1, n.fraction, 0);
      forall acc
        ensures DigitsValue(t, k + 1, k + |FractionText(n)|, acc) == Decimal(n.fraction, acc)
      {
        DecimalReads(t, k + 1, n.fraction, acc);
      }
    }
  }

  // ---- What is read is a number ----

  lemma FindExponent(t: string, p: nat) returns (e: Exponential)
    requires p <= |t| && Exponent(t, p).Ok?
    ensures ExponentFits(e) && Holds(t, p, ExponentText(e)) && p + |ExponentText(e)| == Exponent(t, p).pos
    ensures e.Exponential? <==> IsExponentMark(At(t, p))
  {
    hide Holds;
    if !IsExponentMark(At(t, p)) {
      e := NoExponent;
      HoldsOwn(t, p, p);
    } else {
      var j := if IsSign(At(t, p + 1)) then p + 2 else p + 1;
      var k := DigitsEnd(t, j);
      e := Exponential(t[p], t[p + 1..j], t[j..k]);
      HoldsOwn(t, p, p + 1);
      HoldsOwn(t, p + 1, j);
      HoldsOwn(t, j, k);
      HoldsJoin(t, p, [t[p]], t[p + 1..j]);
      HoldsJoin(t, p, [t[p]] + t[p + 1..j], t[j..k]);
    }
  }

  /** The point and the digits behind it, if there are any. */
  function FractionAt(t: string, k: nat, l: nat): string
    requires k <= l <= |t|
  {
    if l == k then "" else t[k + 1..l]
  }

  lemma FractionFits(t: string, k: nat)
    requires k <= |t| && Fraction(t, k).Ok?
    ensures var w := FractionAt(t, k, Fraction(t, k).pos);
            && Digits(w) && (w == "" <==> Fraction(t, k).pos == k)
            && Holds(t, k, if w == "" then "" else "." + w)
  {
  }

  lemma WholeFits(t: string, p: nat)
    requires p <= |t| && IntegerPart(t, p).Ok?
    ensures var w := t[p..IntegerPart(t, p).pos];
            w != "" && Digits(w) && (w[0] == '0' ==> |w| == 1)
  {
  }

  /** Where the parts of a number that is read end. */
  lemma NumberSteps(t: string, p: nat) returns (j: nat, k: nat, l: nat)
    requires p <= |t| && NumberAt(t, p).Ok?
    ensures j == (if At(t, p) == '-' then p + 1 else p) && j <= |t|
    ensures IntegerPart(t, j).Ok? && k == IntegerPart(t, j).pos && Fraction(t, k).Ok? && l == Fraction(t, k).pos
    ensures Exponent(t, l).Ok? && NumberAt(t, p).pos == Exponent(t, l).pos
  {
    hide IntegerPart;
    j := if At(t, p) == '-' then p + 1 else p;
    k := IntegerPart(t, j).pos;
    l := Fraction(t, k).pos;
  }

  /** Behind the parts of a number stands what ends them. */
  lemma StepsEnd(t: string, j: nat, k: nat, l: nat)
    requires j <= |t| && IntegerPart(t, j).Ok? && IntegerPart(t, j).pos == k
    requires Fraction(t, k).Ok? && Fraction(t, k).pos == l && Exponent(t, l).Ok?
    ensures !IsDigit(At(t, k)) && !IsDigit(At(t, l)) && !IsDigit(At(t, Exponent(t, l).pos))
    ensures l == k <==> At(t, k) != '.'
    ensures !IsExponentMark(At(t, l)) ==> Exponent(t, l).pos == l
  {
  }

  /** What the parser reads as a number is one, and worth what is read. */
  lemma FindNumber(t: string, p: nat) returns (n: Number)
    requires p <= |t| && NumberAt(t, p).Ok?
    ensures NumberFits(n) && Holds(t, p, NumberText(n))
    ensures NumberAt(t, p) == Ok(p + |NumberText(n)|, NumberValue(n))
  {
    hide Exponent, ExponentText, ExponentFits, Fraction, IntegerPart, NumberAt, Digits, Holds;
    var j, k, l := NumberSteps(t, p);
    WholeFits(t, j);
    FractionFits(t, k);
    var e := FindExponent(t, l);
    n := Number(At(t, p) == '-', t[j..k], FractionAt(t, k, l), e);
    HoldsOwn(t, p, j);
    HoldsOwn(t, j, k);
    assert t[p..j] == MinusText(n);
    HoldsJoin(t, p, MinusText(n), n.whole);
    HoldsJoin(t, p, MinusText(n) + n.whole, FractionText(n));
    HoldsJoin(t, p, MinusText(n) + n.whole + FractionText(n), ExponentText(n.exponent));
    StepsEnd(t, j, k, l);
    NumberReads(t, p, n);
  }

  // ---- Integers that were dumped ----

  lemma {:induction false} NatTextDigits(n: nat)
    ensures Digits(NatText(n)) && (NatText(n)[0] == '0' <==> n == 0) && (n == 0 ==> |NatText(n)| == 1)
  {
    if n >= 10 {
      NatTextDigits(n / 10);
    }
  }

  lemma {:induction false} DecimalSnoc(w: string, c: char, acc: nat)
    requires Digits(w) && IsDigit(c)
    ensures Digits(w + [c]) && Decimal(w + [c], acc) == 10 * Decimal(w, acc) + DigitValue(c)
    decreases |w|
  {
    if w != "" {
      assert (w + [c])[1..] == w[1..] + [c];
      DecimalSnoc(w[1..], c, 10 * acc + DigitValue(w[0]));
    } else {
      assert (w + [c])[1..] == "";
    }
  }

  /** The digits of a number have its value. */
  lemma {:induction false} NatTextDecimal(n: nat)
    ensures Digits(NatText(n)) && Decimal(NatText(n), 0) == n
  {
    NatTextDigits(n);
    if n >= 10 {
      NatTextDecimal(n / 10);
      NatTextDigits(n / 10);
      DecimalSnoc(NatText(n / 10), DigitChar(n % 10), 0);
    } else {
      DecimalSnoc("", DigitChar(n), 0);
      assert "" + [DigitChar(n)] == NatText(n);
    }
  }

  /** An integer as a number. */
  function NumberOf(n: int): Number {
    Number(n < 0, NatText(if n < 0 then -n else n), "", NoExponent)
  }

  /**
   The value an integer is read back as: itself when its text has at most nine characters, else
   the nearest double.
   */
  function NormInt(n: int): Json {
    if |IntText(n)| <= 9 then Int(n) else Double(nearest(n as real))
  }

  /** Every dumped integer is a number, which is worth the integer. */
  lemma IntTextNumber(n: int)
    ensures NumberFits(NumberOf(n)) && NumberText(NumberOf(n)) == IntText(n)
    ensures Worth(NumberOf(n)) == n as real && NumberValue(NumberOf(n)) == NormInt(n)
  {
    var m: nat := if n < 0 then -n else n;
    NatTextDigits(m);
    NatTextDecimal(m);
    assert Decimal("", m) == m;
  }

  // ---- What digits and exponents are worth ----

  /** Digits count in tens, by their character codes, and every step of the exponent is a factor of ten. */
  lemma DecimalMeans(w: string, c: char, m: int, e: int)
    requires Digits(w + [c])
    ensures Digits(w) && Decimal("", 0) == 0
    ensures Decimal(w + [c], 0) == 10 * Decimal(w, 0) + (c as int - 0x30)
    ensures Scale(m, 0) == m as real && Scale(m, e + 1) == 10.0 * Scale(m, e)
  {
    assert forall k :: 0 <= k < |w| ==> w[k] == (w + [c])[k];
    assert (w + [c])[|w|] == c;
    DecimalSnoc(w, c, 0);
    ScaleStep(m, e);
  }

  lemma ScaleStep(m: int, e: int)
    ensures Scale(m, e + 1) == 10.0 * Scale(m, e)
  {
    if e < -1 {
      assert Pow10(-e) == 10.0 * Pow10(-e - 1);
      TenTimes(m as real, Pow10(-e - 1));
    } else if e == -1 {
      assert Pow10(1) == 10.0 * Pow10(0);
    }
  }

  lemma TenTimes(x: real, y: real)
    requires y > 0.0
    ensures 10.0 * (x / (10.0 * y)) == x / y
  {
    assert x / (10.0 * y) * (10.0 * y) == x;
    assert (10.0 * (x / (10.0 * y))) * y == x;
  }
}
