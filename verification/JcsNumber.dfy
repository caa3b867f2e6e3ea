/**
 Number spelling of RFC 8785, section 3.2.2.3: a finite binary64 value, given by
 its shortest round-tripping decimal, is re-spelled with ECMAScript's thresholds
 and exponent form.

 A decimal text denotes an exact rational, here a `real`. Re-spelling must not
 change it, and must leave one spelling per value.
 */
module JcsNumber {

  /** A binary64 value. `shortest` is the shortest decimal that reads back as the
      absolute value, in lower case; it is what the host's `repr` supplies. */
  datatype Binary64 = Zero | Finite(negative: bool, shortest: string) | Unrepresentable

  // ------------------------------------------------------------- digits

  predicate IsDigit(c: char) {
    '0' <= c <= '9'
  }

  predicate AllDigits(s: string) {
    s == "" || (IsDigit(s[|s| - 1]) && AllDigits(s[..|s| - 1]))
  }

  function DigitValue(c: char): (d: int)
    ensures 0 <= d <= 9
  {
    if IsDigit(c) then c as int - '0' as int else 0
  }

  function Digit(d: int): (c: char)
    requires 0 <= d <= 9
    ensures IsDigit(c) && DigitValue(c) == d
  {
    ('0' as int + d) as char
  }

  /** The number a digit string spells in base ten. */
  function Nat(s: string): nat {
    if s == "" then 0 else 10 * Nat(s[..|s| - 1]) + DigitValue(s[|s| - 1])
  }

  /** `n` zeros. */
  function Zeros(n: nat): (s: string)
    ensures |s| == n
  {
    if n == 0 then "" else ['0'] + Zeros(n - 1)
  }

  /** Base-ten digits of a natural number, without leading zeros. */
  function Decimal(n: nat): (s: string)
    ensures s != "" && AllDigits(s) && Nat(s) == n
  {
    if n < 10 then [Digit(n)]
    else
      var front := Decimal(n / 10);
      var s := front + [Digit(n % 10)];
      assert s[..|s| - 1] == front;
      s
  }

  // ------------------------------------------------------------ rationals

  /** The rational n * 10^k. */
  ghost function Rational(n: nat, k: int): real
    decreases if k < 0 then -k else k
  {
    if k == 0 then n as real
    else if k > 0 then Rational(10 * n, k - 1)
    else Rational(n, k + 1) / 10.0
  }

  lemma {:induction false} RationalStep(n: nat, k: int)
    ensures Rational(10 * n, k) == Rational(n, k + 1)
    decreases if k < 0 then -k else k
  {
    if k < -1 {
      RationalStep(n, k + 1);
    }
  }

  lemma {:induction false} RationalZero(k: int)
    ensures Rational(0, k) == 0.0
    decreases if k < 0 then -k else k
  {
    if k > 0 {
      RationalZero(k - 1);
    } else if k < 0 {
      RationalZero(k + 1);
    }
  }

  /** At one scale, the coefficient is determined by the value. */
  lemma {:induction false} SameScale(n: nat, m: nat, k: int)
    requires Rational(n, k) == Rational(m, k)
    ensures n == m
    decreases if k < 0 then -k else k
  {
    if k > 0 {
      SameScale(10 * n, 10 * m, k - 1);
    } else if k < 0 {
      SameScale(n, m, k + 1);
    }
  }

  /** Lowering an exponent by `j` multiplies the coefficient by a power of ten. */
  lemma {:induction false} Lower(n: nat, k: int, j: nat) returns (h: nat)
    requires j > 0
    ensures Rational(10 * h, k - j) == Rational(n, k)
    decreases j
  {
    if j == 1 {
      h := n;
      RationalStep(n, k - 1);
    } else {
      var g := Lower(n, k, j - 1);
      h := 10 * g;
      RationalStep(10 * g, k - j);
    }
  }

  /** Coefficients that are no multiple of ten have their exponent determined too. */
  lemma {:induction false} CoefficientUnique(n: nat, k: int, m: nat, l: int)
    requires Rational(n, k) == Rational(m, l)
    requires forall h: nat {:trigger 10 * h} :: n != 10 * h && m != 10 * h
    ensures n == m && k == l
    decreases k > l
  {
    if k > l {
      CoefficientUnique(m, l, n, k);
    } else if k < l {
      var h := Lower(m, l, l - k);
      SameScale(n, 10 * h, k);
      assert false;
    } else {
      SameScale(n, m, k);
    }
  }

  // ------------------------------------------------- spelling and meaning

  datatype Parts = Parts(before: string, found: bool, after: string)

  /** Everything before, and everything after, the first `c`; all of `s` and
      nothing if there is none. */
  function Split(s: string, c: char): Parts {
    if s == "" then Parts("", false, "")
    else if s[0] == c then Parts("", true, s[1..])
    else
      var r := Split(s[1..], c);
      r.(before := [s[0]] + r.before)
  }

  lemma {:induction false} SplitAt(s: string, t: string, c: char)
    requires c !in s
    ensures Split(s + [c] + t, c) == Parts(s, true, t)
    ensures Split(s, c) == Parts(s, false, "")
  {
    if s == "" {
      assert ("" + [c] + t)[1..] == t;
    } else {
      var u := s + [c] + t;
      assert u[1..] == s[1..] + [c] + t;
      assert s == [s[0]] + s[1..];
      SplitAt(s[1..], t, c);
    }
  }

  /** A run of digits with an optional sign. */
  predicate IsExponent(s: string) {
    s != "" && if s[0] == '+' || s[0] == '-' then |s| > 1 && AllDigits(s[1..]) else AllDigits(s)
  }

  function ParseExponent(s: string): int
    requires s != ""
  {
    if s[0] == '-' then 0 - Nat(s[1..]) else if s[0] == '+' then Nat(s[1..]) else Nat(s)
  }

  /** The pieces of a decimal text: mantissa digits around the point, and exponent. */
  datatype Numeral = Numeral(whole: string, pointed: bool, fraction: string, scaled: bool, exponent: string) {

    predicate Valid() {
      && whole != "" && AllDigits(whole) && AllDigits(fraction)
      && (pointed ==> fraction != "")
      && (scaled ==> IsExponent(exponent))
    }

    function Power(): int
      requires scaled ==> exponent != ""
    {
      if scaled then ParseExponent(exponent) else 0
    }

    ghost function Meaning(): real
      requires scaled ==> exponent != ""
    {
      Rational(Nat(whole + fraction), Power() - |fraction|)
    }
  }

  function Read(s: string): Numeral {
    var e := Split(s, 'e');
    var m := Split(e.before, '.');
    Numeral(m.before, m.found, m.after, e.found, e.after)
  }

  /** digits [ "." digits ] [ "e" [sign] digits ] */
  predicate IsDecimal(s: string) {
    Read(s).Valid()
  }

  /** The rational a decimal text denotes. */
  ghost function Denotes(s: string): real
    requires IsDecimal(s)
  {
    Read(s).Meaning()
  }

  /** The decimal of a nonzero binary64 value. */
  predicate IsShortest(s: string) {
    var n := Read(s);
    n.Valid() && Nat(n.whole + n.fraction) > 0
  }

  /** Valid binary64 inputs. */
  predicate IsBinary64(x: Binary64) {
    x.Finite? ==> IsShortest(x.shortest)
  }

  /** The exact value of a finite number. */
  ghost function Value(x: Binary64): real
    requires IsBinary64(x) && !x.Unrepresentable?
  {
    if x.Zero? then 0.0 else if x.negative then -Denotes(x.shortest) else Denotes(x.shortest)
  }

  predicate IsNumberText(s: string) {
    s != "" && if s[0] == '-' then IsDecimal(s[1..]) else IsDecimal(s)
  }

  /** The value a number text denotes. */
  ghost function TextValue(s: string): real
    requires IsNumberText(s)
  {
    if s[0] == '-' then -Denotes(s[1..]) else Denotes(s)
  }

  // ------------------------------------------------------- the serializer

  function TrimLeft(s: string): string {
    if s != "" && s[0] == '0' then TrimLeft(s[1..]) else s
  }

  function TrimRight(s: string): string {
    if s != "" && s[|s| - 1] == '0' then TrimRight(s[..|s| - 1]) else s
  }

  /** Significant digits and the position of the decimal point relative to them. */
  function Significand(shortest: string): (r: (string, int))
    requires IsDecimal(shortest)
  {
    var n := Read(shortest);
    var digits := n.whole + n.fraction;
    var stripped := TrimLeft(digits);
    var position := |n.whole| + n.Power() - (|digits| - |stripped|);
    (TrimRight(stripped), position)
  }

  function SignedDecimal(k: int): string {
    if k >= 0 then "+" + Decimal(k) else "-" + Decimal(-k)
  }

  /** ECMAScript's fixed and exponential forms. */
  function Format(digits: string, position: int): string
    requires digits != ""
  {
    if 0 < position <= 21 then
      if position >= |digits| then digits + Zeros(position - |digits|)
      else digits[..position] + "." + digits[position..]
    else if -6 < position <= 0 then
      "0." + (Zeros(-position) + digits)
    else
      [digits[0]] + (if |digits| > 1 then "." + digits[1..] else "") + ("e" + SignedDecimal(position - 1))
  }

  datatype Result = Text(text: string) | Rejected

  function Serialize(x: Binary64): Result
    requires IsBinary64(x)
  {
    match x
    case Unrepresentable => Rejected
    case Zero => Text("0")
    case Finite(negative, shortest) =>
      SignificandNormal(shortest);
      var (digits, position) := Significand(shortest);
      Text((if negative then "-" else "") + Format(digits, position))
  }

  // ------------------------------------------------------------ the proof

  lemma {:induction false} DigitsConcat(a: string, b: string)
    ensures AllDigits(a + b) <==> AllDigits(a) && AllDigits(b)
  {
    if b == "" {
      assert a + b == a;
    } else {
      assert (a + b)[..|a + b| - 1] == a + b[..|b| - 1];
      DigitsConcat(a, b[..|b| - 1]);
    }
  }

  lemma {:induction false} DigitsOnly(s: string, c: char)
    requires AllDigits(s) && !IsDigit(c)
    ensures c !in s
  {
    if s != "" {
      DigitsOnly(s[..|s| - 1], c);
      assert s == s[..|s| - 1] + [s[|s| - 1]];
    }
  }

  lemma Associative(a: string, b: string, c: string)
    ensures a + (b + c) == (a + b) + c
  {}

  lemma {:induction false} LeadingZero(s: string)
    requires AllDigits(s)
    ensures AllDigits(['0'] + s) && Nat(['0'] + s) == Nat(s)
  {
    if s != "" {
      assert (['0'] + s)[..|s|] == ['0'] + s[..|s| - 1];
      LeadingZero(s[..|s| - 1]);
    }
  }

  lemma {:induction false} LeadingZeros(n: nat, s: string)
    requires AllDigits(s)
    ensures AllDigits(Zeros(n) + s) && Nat(Zeros(n) + s) == Nat(s)
  {
    if n == 0 {
      assert Zeros(n) + s == s;
    } else {
      LeadingZeros(n - 1, s);
      LeadingZero(Zeros(n - 1) + s);
      Associative(['0'], Zeros(n - 1), s);
    }
  }

  /** `m` with `n` zeros behind it. */
  ghost function Shifted(m: nat, n: nat): nat
    decreases n
  {
    if n == 0 then m else Shifted(10 * m, n - 1)
  }

  lemma {:induction false} ShiftedRational(m: nat, n: nat, k: int)
    ensures Rational(Shifted(m, n), k) == Rational(m, k + n)
    decreases n
  {
    if n == 0 {
    } else {
      ShiftedRational(10 * m, n - 1, k);
      RationalStep(m, k + n - 1);
    }
  }

  lemma {:induction false} TrailingZeros(s: string, n: nat)
    requires AllDigits(s)
    ensures AllDigits(s + Zeros(n)) && Nat(s + Zeros(n)) == Shifted(Nat(s), n)
    decreases n
  {
    if n == 0 {
      assert s + Zeros(n) == s;
    } else {
      var t := s + ['0'];
      assert t[..|t| - 1] == s;
      TrailingZeros(t, n - 1);
      Associative(s, ['0'], Zeros(n - 1));
    }
  }

  lemma {:induction false} NatPositive(s: string)
    requires AllDigits(s) && s != "" && s[0] != '0'
    ensures Nat(s) > 0
  {
    if |s| > 1 {
      NatPositive(s[..|s| - 1]);
    }
  }

  lemma {:induction false} NatInjective(a: string, b: string)
    requires AllDigits(a) && AllDigits(b) && Nat(a) == Nat(b)
    requires a != "" ==> a[0] != '0'
    requires b != "" ==> b[0] != '0'
    ensures a == b
  {
    if a == "" || b == "" {
      if a != "" { NatPositive(a); }
      if b != "" { NatPositive(b); }
    } else {
      var fa, fb := a[..|a| - 1], b[..|b| - 1];
      NatInjective(fa, fb);
      assert a == fa + [a[|a| - 1]] && b == fb + [b[|b| - 1]];
    }
  }

  /** Digits without a leading or trailing zero. */
  predicate Normal(digits: string) {
    digits != "" && AllDigits(digits) && digits[0] != '0' && digits[|digits| - 1] != '0'
  }

  /** The value of significant digits with the decimal point at `position`. */
  ghost function Placed(digits: string, position: int): real {
    Rational(Nat(digits), position - |digits|)
  }

  lemma {:induction false} TrimLeftPreserves(s: string)
    requires AllDigits(s)
    ensures AllDigits(TrimLeft(s)) && Nat(TrimLeft(s)) == Nat(s)
    ensures TrimLeft(s) != "" ==> TrimLeft(s)[0] != '0'
  {
    if s != "" && s[0] == '0' {
      assert s == ['0'] + s[1..];
      DigitsConcat(['0'], s[1..]);
      LeadingZero(s[1..]);
      TrimLeftPreserves(s[1..]);
    }
  }

  lemma {:induction false} TrimRightPreserves(s: string, k: int)
    requires AllDigits(s)
    ensures AllDigits(TrimRight(s)) && |TrimRight(s)| <= |s|
    ensures Rational(Nat(TrimRight(s)), k + |s| - |TrimRight(s)|) == Rational(Nat(s), k)
    ensures TrimRight(s) != "" ==> TrimRight(s)[0] == s[0] && TrimRight(s)[|TrimRight(s)| - 1] != '0'
    ensures TrimRight(s) == "" ==> Nat(s) == 0
  {
    if s != "" && s[|s| - 1] == '0' {
      TrimRightPreserves(s[..|s| - 1], k + 1);
      RationalStep(Nat(s[..|s| - 1]), k);
    }
  }

  /** Dropping leading and trailing zeros moves the point, not the value. */
  lemma TrimPreserves(digits: string, position: int)
    requires AllDigits(digits) && Nat(digits) > 0
    ensures var stripped := TrimLeft(digits);
      var d := TrimRight(stripped);
      && Normal(d)
      && Placed(d, position - (|digits| - |stripped|)) == Rational(Nat(digits), position - |digits|)
  {
    var stripped := TrimLeft(digits);
    var d := TrimRight(stripped);
    TrimLeftPreserves(digits);
    var k, p := position - |digits|, position - (|digits| - |stripped|);
    TrimRightPreserves(stripped, k);
    assert p - |d| == k + |stripped| - |d|;
  }

  lemma SignificandNormal(shortest: string)
    requires IsShortest(shortest)
    ensures Normal(Significand(shortest).0)
    ensures Placed(Significand(shortest).0, Significand(shortest).1) == Denotes(shortest)
  {
    var n := Read(shortest);
    DigitsConcat(n.whole, n.fraction);
    TrimPreserves(n.whole + n.fraction, |n.whole| + n.Power());
  }

  /** The text with the given pieces. */
  function Write(n: Numeral): string {
    n.whole + (if n.pointed then "." + n.fraction else "") + (if n.scaled then "e" + n.exponent else "")
  }

  lemma WriteScaled(n: Numeral)
    ensures var mantissa := n.whole + if n.pointed then "." + n.fraction else "";
      Write(n) == if n.scaled then mantissa + ['e'] + n.exponent else mantissa
  {
    var mantissa := n.whole + if n.pointed then "." + n.fraction else "";
    if n.scaled {
      assert mantissa + ("e" + n.exponent) == mantissa + ['e'] + n.exponent;
    } else {
      assert mantissa + "" == mantissa;
    }
  }

  /** Reading inverts writing. */
  lemma ReadWrite(n: Numeral)
    requires n.Valid() && (!n.pointed ==> n.fraction == "") && (!n.scaled ==> n.exponent == "")
    ensures Read(Write(n)) == n
  {
    var mantissa := n.whole + if n.pointed then "." + n.fraction else "";
    DigitsOnly(n.whole, '.');
    DigitsOnly(n.whole, 'e');
    DigitsOnly(n.fraction, 'e');
    SplitAt(n.whole, n.fraction, '.');
    assert Split(mantissa, '.') == Parts(n.whole, n.pointed, n.fraction) by {
      assert mantissa == if n.pointed then n.whole + ['.'] + n.fraction else n.whole;
    }
    SplitAt(mantissa, n.exponent, 'e');
    WriteScaled(n);
  }

  /** `text` is a decimal that denotes the digits placed at `position`. */
  ghost predicate Spells(text: string, digits: string, position: int) {
    IsDecimal(text) && Denotes(text) == Placed(digits, position)
  }

  lemma WholeForm(digits: string, position: int)
    requires Normal(digits) && |digits| <= position
    ensures Spells(digits + Zeros(position - |digits|), digits, position)
  {
    var zeros := Zeros(position - |digits|);
    TrailingZeros(digits, |zeros|);
    ShiftedRational(Nat(digits), |zeros|, 0);
    var n := Numeral(digits + zeros, false, "", false, "");
    assert n.whole + n.fraction == digits + zeros;
    assert Write(n) == digits + zeros;
    ReadWrite(n);
  }

  lemma FractionForm(digits: string, position: int)
    requires Normal(digits) && position <= 0
    ensures Spells("0." + (Zeros(-position) + digits), digits, position)
  {
    var n := Numeral("0", true, Zeros(-position) + digits, false, "");
    FractionValue(digits, position, n);
    assert Write(n) == "0." + n.fraction;
    ReadWrite(n);
  }

  lemma FractionValue(digits: string, position: int, n: Numeral)
    requires Normal(digits) && position <= 0
    requires n == Numeral("0", true, Zeros(-position) + digits, false, "")
    ensures n.Valid() && n.Meaning() == Placed(digits, position)
  {
    var zeros := Zeros(-position);
    LeadingZeros(-position, digits);
    LeadingZero(zeros + digits);
    assert 0 - |zeros + digits| == position - |digits|;
  }

  lemma ExponentialForm(digits: string, position: int)
    requires Normal(digits)
    ensures Spells(
      [digits[0]] + (if |digits| > 1 then "." + digits[1..] else "") + ("e" + SignedDecimal(position - 1)),
      digits, position)
  {
    var n := Numeral([digits[0]], |digits| > 1, digits[1..], true, SignedDecimal(position - 1));
    DigitsConcat([digits[0]], digits[1..]);
    assert digits == [digits[0]] + digits[1..];
    ReadWrite(n);
  }

  /** Every form denotes the placed digits. */
  lemma FormatDenotes(digits: string, position: int)
    requires Normal(digits)
    ensures Spells(Format(digits, position), digits, position)
  {
    if 0 < position <= 21 {
      if position >= |digits| {
        WholeForm(digits, position);
      } else {
        var n := Numeral(digits[..position], true, digits[position..], false, "");
        assert n.whole + n.fraction == digits;
        DigitsConcat(n.whole, n.fraction);
        assert Write(n) == Format(digits, position);
        ReadWrite(n);
      }
    } else if -6 < position <= 0 {
      FractionForm(digits, position);
    } else {
      ExponentialForm(digits, position);
    }
  }

  lemma FormatStart(digits: string, position: int)
    requires Normal(digits)
    ensures Format(digits, position) != "" && IsDigit(Format(digits, position)[0])
  {
    DigitsConcat([digits[0]], digits[1..]);
    assert digits == [digits[0]] + digits[1..];
  }

  /** The emitted text denotes exactly the value that was serialized. */
  lemma SerializeExact(x: Binary64)
    requires IsBinary64(x) && !x.Unrepresentable?
    ensures Serialize(x).Text? && IsNumberText(Serialize(x).text)
    ensures TextValue(Serialize(x).text) == Value(x)
  {
    match x
    case Zero =>
      ReadWrite(Numeral("0", false, "", false, ""));
      assert Nat("0" + "") == 0;
    case Finite(negative, shortest) =>
      SignificandNormal(shortest);
      var (digits, position) := Significand(shortest);
      FormatDenotes(digits, position);
      FormatStart(digits, position);
      var body := Format(digits, position);
      if negative {
        assert ("-" + body)[1..] == body;
      } else {
        assert "" + body == body;
      }
  }

  lemma PlacedInjective(a: string, p: int, b: string, q: int)
    requires Normal(a) && Normal(b) && Placed(a, p) == Placed(b, q)
    ensures a == b && p == q
  {
    CoefficientUnique(Nat(a), p - |a|, Nat(b), q - |b|);
    NatInjective(a, b);
  }

  lemma {:induction false} RationalPositive(n: nat, k: int)
    requires n > 0
    ensures Rational(n, k) > 0.0
    decreases if k < 0 then -k else k
  {
    if k > 0 {
      RationalPositive(10 * n, k - 1);
    } else if k < 0 {
      RationalPositive(n, k + 1);
    }
  }

  lemma DenotesPositive(shortest: string)
    requires IsShortest(shortest)
    ensures Denotes(shortest) > 0.0
  {
    SignificandNormal(shortest);
    var (digits, position) := Significand(shortest);
    NatPositive(digits);
    RationalPositive(Nat(digits), position - |digits|);
  }

  /** Two finite numbers have the same text exactly when they have the same value. */
  lemma SameTextIffSameValue(x: Binary64, y: Binary64)
    requires IsBinary64(x) && IsBinary64(y) && !x.Unrepresentable? && !y.Unrepresentable?
    ensures Serialize(x) == Serialize(y) <==> Value(x) == Value(y)
  {
    SerializeExact(x);
    SerializeExact(y);
    if Value(x) == Value(y) {
      if x.Finite? { DenotesPositive(x.shortest); }
      if y.Finite? { DenotesPositive(y.shortest); }
      if x.Finite? {
        SignificandNormal(x.shortest);
        SignificandNormal(y.shortest);
        var (a, p) := Significand(x.shortest);
        var (b, q) := Significand(y.shortest);
        PlacedInjective(a, p, b, q);
      }
    }
  }

  // ------------------------------------------------------------ which form is chosen

  lemma {:induction false} RationalMonotone(m: nat, n: nat, k: int)
    ensures m <= n ==> Rational(m, k) <= Rational(n, k)
    ensures m < n ==> Rational(m, k) < Rational(n, k)
    decreases if k < 0 then -k else k
  {
    if k > 0 {
      RationalMonotone(10 * m, 10 * n, k - 1);
    } else if k < 0 {
      RationalMonotone(m, n, k + 1);
    }
  }

  /** Powers of ten grow. */
  lemma {:induction false} PowersGrow(j: int, k: int)
    requires j <= k
    ensures Rational(1, j) <= Rational(1, k)
    decreases k - j
  {
    if j < k {
      RationalStep(1, j);
      RationalMonotone(1, 10, j);
      PowersGrow(j + 1, k);
    }
  }

  lemma {:induction false} ShiftedTimes(m: nat, n: nat)
    ensures Shifted(10 * m, n) == 10 * Shifted(m, n)
    decreases n
  {
    if n > 0 {
      ShiftedTimes(10 * m, n - 1);
    }
  }

  /** Digits without a leading zero spell a number of that many digits. */
  lemma {:induction false} DigitCount(s: string)
    requires AllDigits(s) && s != ""
    ensures Nat(s) < Shifted(1, |s|)
    ensures s[0] != '0' ==> Shifted(1, |s| - 1) <= Nat(s)
  {
    var n := |s| - 1;
    ShiftedTimes(1, n);
    if n == 0 {
      assert s[..0] == "";
      assert Shifted(1, 1) == 10;
    } else {
      DigitCount(s[..n]);
      ShiftedTimes(1, n - 1);
    }
  }

  /** The position of the point is the magnitude of the number. */
  lemma PlacedBounds(digits: string, position: int)
    requires Normal(digits)
    ensures Rational(1, position - 1) <= Placed(digits, position) < Rational(1, position)
  {
    var n, k := |digits|, position - |digits|;
    DigitCount(digits);
    RationalMonotone(Shifted(1, n - 1), Nat(digits), k);
    RationalMonotone(Nat(digits), Shifted(1, n), k);
    ShiftedRational(1, n - 1, k);
    ShiftedRational(1, n, k);
  }

  lemma Thresholds()
    ensures Rational(1, 21) == 1_000_000_000_000_000_000_000.0
    ensures Rational(1, -6) == 0.000_001
  {
    assert Rational(1, 21) == Rational(10_000_000, 14);
    assert Rational(10_000_000, 14) == Rational(100_000_000_000_000, 7);
    assert Rational(100_000_000_000_000, 7) == Rational(1_000_000_000_000_000_000_000, 0);
    assert Rational(1, -3) == 0.001;
    assert Rational(1, -6) == Rational(1, -3) / 1000.0;
  }

  /** No zero at an end of a numeral that its value does not need: none before the whole
      part unless that is zero, none behind the fraction, and in scaled form one nonzero
      digit before the point and a signed exponent without leading zeros. */
  ghost predicate Tidy(n: Numeral) {
    && n.Valid()
    && (n.pointed ==> n.fraction[|n.fraction| - 1] != '0')
    && (n.whole[0] == '0' ==> n.whole == "0" && !n.scaled)
    && (n.scaled ==>
          && |n.whole| == 1 && |n.exponent| >= 2 && (n.exponent[0] == '+' || n.exponent[0] == '-')
          && n.exponent[1] != '0')
  }

  /** `body` reads as a tidy numeral, which has an exponent exactly when `scaled`. */
  ghost predicate FormIs(body: string, scaled: bool) {
    Tidy(Read(body)) && Read(body).scaled == scaled
  }

  lemma {:induction false} DecimalTidy(n: nat)
    ensures n > 0 ==> Decimal(n)[0] != '0'
  {
    if n >= 10 {
      DecimalTidy(n / 10);
    }
  }

  lemma ExponentTidy(digits: string, position: int)
    requires Normal(digits) && position != 1
    ensures FormIs(
      [digits[0]] + (if |digits| > 1 then "." + digits[1..] else "") + ("e" + SignedDecimal(position - 1)), true)
  {
    var n := Numeral([digits[0]], |digits| > 1, digits[1..], true, SignedDecimal(position - 1));
    DigitsConcat([digits[0]], digits[1..]);
    assert digits == [digits[0]] + digits[1..];
    DecimalTidy(if position >= 1 then position - 1 else 1 - position);
    ReadWrite(n);
  }

  lemma WholeTidy(digits: string, position: int)
    requires Normal(digits) && |digits| <= position
    ensures FormIs(digits + Zeros(position - |digits|), false)
  {
    var zeros := Zeros(position - |digits|);
    TrailingZeros(digits, |zeros|);
    var n := Numeral(digits + zeros, false, "", false, "");
    assert Write(n) == digits + zeros;
    ReadWrite(n);
  }

  lemma FractionTidy(digits: string, position: int)
    requires Normal(digits) && position <= 0
    ensures FormIs("0." + (Zeros(-position) + digits), false)
  {
    var n := Numeral("0", true, Zeros(-position) + digits, false, "");
    FractionValue(digits, position, n);
    assert Write(n) == "0." + n.fraction;
    ReadWrite(n);
  }

  lemma FormatForm(digits: string, position: int)
    requires Normal(digits)
    ensures FormIs(Format(digits, position), !(-6 < position <= 21))
  {
    if 0 < position <= 21 {
      if position >= |digits| {
        WholeTidy(digits, position);
      } else {
        var n := Numeral(digits[..position], true, digits[position..], false, "");
        assert n.whole + n.fraction == digits;
        DigitsConcat(n.whole, n.fraction);
        assert Write(n) == Format(digits, position);
        ReadWrite(n);
      }
    } else if -6 < position <= 0 {
      FractionTidy(digits, position);
    } else {
      ExponentTidy(digits, position);
    }
  }

  /** The point is within the fixed forms exactly when the number is. */
  lemma Magnitude(digits: string, position: int)
    requires Normal(digits)
    ensures -6 < position <= 21 <==> 0.000_001 <= Placed(digits, position) < 1_000_000_000_000_000_000_000.0
  {
    PlacedBounds(digits, position);
    Thresholds();
    if position <= 21 { PowersGrow(position, 21); } else { PowersGrow(21, position - 1); }
    if position <= -6 { PowersGrow(position, -6); } else { PowersGrow(-6, position - 1); }
  }

  /** Zero has one text. A nonzero number is written without superfluous zeros, with a minus
      sign exactly when it is negative, and with an exponent exactly when its magnitude is at
      least ten to the 21st or below one millionth. */
  lemma SerializeForm(x: Binary64)
    requires IsBinary64(x) && x.Finite?
    ensures Serialize(Zero) == Text("0")
    ensures Serialize(x).Text? && Serialize(x).text != ""
    ensures var t, v := Serialize(x).text, Value(x);
      var size := if v < 0.0 then -v else v;
      var scaled := size >= 1_000_000_000_000_000_000_000.0 || size < 0.000_001;
      && (t[0] == '-' <==> v < 0.0)
      && FormIs(if v < 0.0 then t[1..] else t, scaled)
  {
    var negative, shortest := x.negative, x.shortest;
    SignificandNormal(shortest);
    var (digits, position) := Significand(shortest);
    FormatStart(digits, position);
    FormatForm(digits, position);
    DenotesPositive(shortest);
    Magnitude(digits, position);
    var body := Format(digits, position);
    if negative {
      assert ("-" + body)[1..] == body;
    } else {
      assert "" + body == body;
    }
  }
}
