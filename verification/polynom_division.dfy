/** Division with remainder of `Polynom` (the two private `divide`
    overloads, `div` and `rem` of src/lesson11/task1/Polynom.kt). */
module PolynomDivision {
  import opened Outcomes
  import opened Polynoms

  /** The `Pair<Polynom, Polynom>` that `divide` returns. */
  datatype Division = Division(quotient: Polynom, remainder: Polynom)

  /** The message of the exception a zero divisor raises. */
  const DivideByZeroMessage := "Cannot divide by zero"

  /** The polynomial `b * q + r` is unchanged by a long-division step, so
      this is the relation every step keeps, degree by degree. */
  ghost predicate SameDividend(b: Polynom, q: Polynom, r: Polynom, q': Polynom, r': Polynom)
  {
    forall k: nat :: ProductCoeff(b, q', k) + Coeff(r', k) == ProductCoeff(b, q, k) + Coeff(r, k)
  }

  lemma QuotientTimes(x: real, y: real)
    requires y != 0.0
    ensures (x / y) * y == x && y * (x / y) == x
  {
  }

  /** The multiplier of one long-division step: the leading coefficient of
      the remainder over that of the divisor, at the difference of their
      degrees. */
  function Multiplier(r: Polynom, b: Polynom): (m: Polynom)
    requires Degree(r) >= Degree(b) && Coeff(b, Degree(b)) != 0.0
    ensures Valid(m)
    ensures IsMonomial(m, Coeff(r, Degree(r)) / Coeff(b, Degree(b)), Degree(r) - Degree(b))
  {
    Monomial(Coeff(r, Degree(r)) / Coeff(b, Degree(b)), Degree(r) - Degree(b))
  }

  /** c·x^d times the divisor has coefficient `c` times the divisor's
      leading coefficient at degree `deg b + d`, and none above. */
  lemma ProductTop(b: Polynom, m: Polynom, c: real, d: nat, k: nat)
    requires IsMonomial(m, c, d) && k >= Degree(b) + d
    ensures ProductCoeff(m, b, k) == if k == Degree(b) + d then c * Coeff(b, Degree(b)) else 0.0
  {
    ProductLeftMonomial(m, b, c, d, k);
    if k > Degree(b) + d {
      assert Coeff(b, k - d) == 0.0;
    }
  }

  /** At and above the remainder's degree, the coefficients of
      `r - m * b` vanish when `m` is c·x^d with `c` times the divisor's
      leading coefficient equal to the remainder's. */
  lemma CancelsAbove(r: Polynom, b: Polynom, m: Polynom, t: Polynom, c: real, d: nat, k: nat)
    requires IsMonomial(m, c, d) && Degree(r) == Degree(b) + d && k >= Degree(r)
    requires c * Coeff(b, Degree(b)) == Coeff(r, Degree(r))
    requires IsProduct(t, m, b)
    ensures Coeff(t, k) == Coeff(r, k)
  {
    ProductTop(b, m, c, d, k);
  }

  /** Subtracting (c·x^d)·b from `r` leaves a shorter list when `c` is
      the remainder's leading coefficient over the divisor's. */
  lemma SubtractionShortens(r: Polynom, b: Polynom, m: Polynom, t: Polynom, s: Polynom, c: real, d: nat)
    requires Valid(r) && Valid(s) && Degree(b) >= 1
    requires IsMonomial(m, c, d) && Degree(r) == Degree(b) + d
    requires Coeff(b, Degree(b)) != 0.0 && c == Coeff(r, Degree(r)) / Coeff(b, Degree(b))
    requires IsProduct(t, m, b)
    requires forall j: nat :: Coeff(s, j) == Coeff(r, j) - Coeff(t, j)
    ensures |s.coeffList| < |r.coeffList|
  {
    QuotientTimes(Coeff(r, Degree(r)), Coeff(b, Degree(b)));
    forall k: nat | k >= Degree(r) ensures Coeff(s, k) == 0.0 {
      CancelsAbove(r, b, m, t, c, d, k);
    }
    ShortIfHighZero(s, Degree(r));
  }

  /** The product of the multiplier and the divisor has the remainder's
      leading term, so subtracting it shortens the remainder. */
  lemma LeadingTermCancels(r: Polynom, b: Polynom)
    requires Valid(r) && Valid(b) && Degree(b) >= 1 && Degree(r) >= Degree(b)
    ensures |Minus(r, Times(Multiplier(r, b), b)).coeffList| < |r.coeffList|
  {
    var m := Multiplier(r, b);
    var t := Times(m, b);
    var c := Coeff(r, Degree(r)) / Coeff(b, Degree(b));
    SubtractionShortens(r, b, m, t, Minus(r, t), c, Degree(r) - Degree(b));
  }

  /** The `while` loop of `divide(other: Polynom)`: while the remainder's
      degree is at least the divisor's, add the multiplier to the quotient
      and subtract multiplier times divisor from the remainder. It stops
      with a remainder of lower degree than the divisor. */
  function LongDivision(q: Polynom, r: Polynom, b: Polynom): (d: Division)
    requires Valid(r) && Valid(b) && Degree(b) >= 1
    ensures Valid(d.remainder) && Degree(d.remainder) < Degree(b)
    ensures Valid(q) ==> Valid(d.quotient)
    decreases |r.coeffList|
  {
    if Degree(r) >= Degree(b) then
      var m := Multiplier(r, b);
      LeadingTermCancels(r, b);
      LongDivision(Plus(q, m), Minus(r, Times(m, b)), b)
    else
      Division(q, r)
  }

  /** Adding c·x^e to the quotient adds `b` times it to the product:
      `b * (q + m) - m * b == b * q`, degree by degree. */
  lemma StepArithmetic(b: Polynom, q: Polynom, m: Polynom, q': Polynom, c: real, e: nat, k: nat)
    requires IsMonomial(m, c, e)
    requires forall j: nat :: Coeff(q', j) == Coeff(q, j) + Coeff(m, j)
    ensures ProductCoeff(b, q', k) - ProductCoeff(m, b, k) == ProductCoeff(b, q, k)
  {
    ProductRightLinear(b, q, m, q', k);
    ProductRightMonomial(b, m, c, e, k);
    ProductLeftMonomial(m, b, c, e, k);
  }

  /** One step keeps `b * q + r`: `b * (q + m) + (r - m * b) == b * q + r`. */
  lemma StepKeepsDividend(b: Polynom, q: Polynom, r: Polynom, m: Polynom, c: real, e: nat)
    requires IsMonomial(m, c, e)
    ensures SameDividend(b, q, r, Plus(q, m), Minus(r, Times(m, b)))
  {
    StepKeeps(b, q, r, m, c, e, Plus(q, m), Times(m, b), Minus(r, Times(m, b)));
  }

  lemma StepKeeps(b: Polynom, q: Polynom, r: Polynom, m: Polynom, c: real, e: nat, q': Polynom, t: Polynom, r': Polynom)
    requires IsMonomial(m, c, e) && IsProduct(t, m, b)
    requires forall j: nat :: Coeff(q', j) == Coeff(q, j) + Coeff(m, j)
    requires forall j: nat :: Coeff(r', j) == Coeff(r, j) - Coeff(t, j)
    ensures SameDividend(b, q, r, q', r')
  {
    forall k: nat
      ensures ProductCoeff(b, q', k) + Coeff(r', k) == ProductCoeff(b, q, k) + Coeff(r, k)
    {
      StepArithmetic(b, q, m, q', c, e, k);
    }
  }

  /** The whole loop keeps `b * q + r`. */
  lemma {:induction false} LongDivisionKeepsDividend(q: Polynom, r: Polynom, b: Polynom)
    requires Valid(r) && Valid(b) && Degree(b) >= 1
    ensures SameDividend(b, q, r, LongDivision(q, r, b).quotient, LongDivision(q, r, b).remainder)
    decreases |r.coeffList|
  {
    if Degree(r) >= Degree(b) {
      var m := Multiplier(r, b);
      var c := Coeff(r, Degree(r)) / Coeff(b, Degree(b));
      LeadingTermCancels(r, b);
      var q', r' := Plus(q, m), Minus(r, Times(m, b));
      StepKeepsDividend(b, q, r, m, c, Degree(r) - Degree(b));
      LongDivisionKeepsDividend(q', r', b);
    }
  }

  /** `coeffList.map { it / n }`. */
  function DividedList(a: Polynom, n: real): seq<real>
    requires n != 0.0
  {
    seq(|a.coeffList|, i requires 0 <= i < |a.coeffList| => a.coeffList[i] / n)
  }

  lemma DividedAt(a: Polynom, n: real, k: nat)
    requires n != 0.0
    ensures Coeff(Of(Reverse(DividedList(a, n))), k) == Coeff(a, k) / n
  {
    ReversedAt(DividedList(a, n), k);
    if k >= |a.coeffList| {
      ZeroOver(n);
    }
  }

  lemma ZeroOver(n: real)
    requires n != 0.0
    ensures 0.0 / n == 0.0
  {
  }

  lemma DividedCoefficients(a: Polynom, n: real)
    requires n != 0.0
    ensures forall k: nat :: Coeff(Of(Reverse(DividedList(a, n))), k) == Coeff(a, k) / n
  {
    forall k: nat ensures Coeff(Of(Reverse(DividedList(a, n))), k) == Coeff(a, k) / n {
      DividedAt(a, n, k);
    }
  }

  /** `divide(n: Double)`: a zero divisor throws; otherwise every
      coefficient is divided by `n` and the remainder is zero. */
  function DivideByNumber(a: Polynom, n: real): (r: Result<Division>)
    ensures n == 0.0 <==> r.Thrown?
    ensures r.Thrown? ==> r.error == Arithmetic(DivideByZeroMessage)
    ensures r.Ok? ==> Valid(r.value.quotient) && IsZero(r.value.remainder)
    ensures r.Ok? ==> forall k: nat :: Coeff(r.value.quotient, k) == Coeff(a, k) / n
  {
    if n == 0.0 then Thrown(Arithmetic(DivideByZeroMessage))
    else
      DividedCoefficients(a, n);
      Ok(Division(Of(Reverse(DividedList(a, n))), Of([])))
  }

  /** `divide(other: Polynom)`: a divisor of degree 0 is divided out as a
      number (and throws when it is zero); otherwise long division starts
      from the zero quotient and a copy of the dividend. */
  function Divide(a: Polynom, b: Polynom): (r: Result<Division>)
    requires Valid(b)
    ensures IsZero(b) <==> r.Thrown?
    ensures r.Thrown? ==> r.error == Arithmetic(DivideByZeroMessage)
    ensures r.Ok? ==> Valid(r.value.quotient) && Valid(r.value.remainder)
    ensures r.Ok? && Degree(b) >= 1 ==> Degree(r.value.remainder) < Degree(b)
    ensures r.Ok? && Degree(b) == 0 ==> IsZero(r.value.remainder)
  {
    if Degree(b) == 0 then DivideByNumber(a, Coeff(b, 0))
    else Ok(LongDivision(Of([]), Of(Reverse(a.coeffList)), b))
  }

  /** `div`: the quotient of `divide`. */
  function Div(a: Polynom, b: Polynom): (r: Result<Polynom>)
    requires Valid(b)
    ensures r.Thrown? <==> IsZero(b)
    ensures r.Ok? ==> Valid(r.value)
  {
    match Divide(a, b)
    case Ok(d) => Ok(d.quotient)
    case Thrown(e) => Thrown(e)
  }

  /** `rem`: the remainder of `divide`. */
  function Rem(a: Polynom, b: Polynom): (r: Result<Polynom>)
    requires Valid(b)
    ensures r.Thrown? <==> IsZero(b)
    ensures r.Ok? ==> Valid(r.value)
    ensures r.Ok? && Degree(b) >= 1 ==> Degree(r.value) < Degree(b)
    ensures r.Ok? && Degree(b) == 0 ==> IsZero(r.value)
  {
    match Divide(a, b)
    case Ok(d) => Ok(d.remainder)
    case Thrown(e) => Thrown(e)
  }

  /** Dividing every coefficient by the constant divisor and multiplying
      back by it restores the dividend. */
  lemma ConstantDivisorRestores(a: Polynom, b: Polynom, q: Polynom, n: real, k: nat)
    requires IsMonomial(b, n, 0) && n != 0.0
    requires Coeff(q, k) == Coeff(a, k) / n
    ensures ProductCoeff(b, q, k) == Coeff(a, k)
  {
    ProductLeftMonomial(b, q, n, 0, k);
    QuotientTimes(Coeff(a, k), n);
  }

  /** With a constant nonzero divisor, divisor times quotient plus
      remainder has the dividend's coefficients. */
  lemma ConstantDivision(a: Polynom, b: Polynom)
    requires Valid(b) && !IsZero(b) && Degree(b) == 0
    ensures forall k: nat :: ProductCoeff(b, Divide(a, b).value.quotient, k) + Coeff(Divide(a, b).value.remainder, k) == Coeff(a, k)
  {
    var d := Divide(a, b).value;
    var n := Coeff(b, 0);
    assert IsMonomial(b, n, 0);
    forall k: nat ensures ProductCoeff(b, d.quotient, k) + Coeff(d.remainder, k) == Coeff(a, k) {
      ConstantDivisorRestores(a, b, d.quotient, n, k);
    }
  }

  /** Starting from the zero quotient and the dividend, any `q`, `r` that
      keep `b * q + r` satisfy `b * q + r == a`. */
  lemma StartRestores(a: Polynom, b: Polynom, zero: Polynom, copy: Polynom, q: Polynom, r: Polynom)
    requires IsZero(zero) && forall k: nat :: Coeff(copy, k) == Coeff(a, k)
    requires SameDividend(b, zero, copy, q, r)
    ensures forall k: nat :: ProductCoeff(b, q, k) + Coeff(r, k) == Coeff(a, k)
  {
    forall k: nat ensures ProductCoeff(b, q, k) + Coeff(r, k) == Coeff(a, k) {
      ProductWithZero(b, zero, k);
    }
  }

  /** Long division from the zero quotient and a copy of the dividend ends
      with divisor times quotient plus remainder equal to the dividend. */
  lemma LongDivisionRestores(a: Polynom, b: Polynom)
    requires Valid(a) && Valid(b) && Degree(b) >= 1
    ensures forall k: nat :: ProductCoeff(b, Divide(a, b).value.quotient, k) + Coeff(Divide(a, b).value.remainder, k) == Coeff(a, k)
  {
    var zero, copy := Of([]), Of(Reverse(a.coeffList));
    CopyCoefficients(a);
    LongDivisionKeepsDividend(zero, copy, b);
    var d := LongDivision(zero, copy, b);
    StartRestores(a, b, zero, copy, d.quotient, d.remainder);
  }

  /** Coefficient-wise `b * q + r == a` is the polynomial equation. */
  lemma SumRestores(a: Polynom, b: Polynom, q: Polynom, r: Polynom, t: Polynom)
    requires Valid(a) && IsProduct(t, b, q)
    requires forall k: nat :: ProductCoeff(b, q, k) + Coeff(r, k) == Coeff(a, k)
    ensures Plus(t, r) == a
  {
    SameCoefficients(Plus(t, r), a);
  }

  lemma RestoresDividend(a: Polynom, b: Polynom, q: Polynom, r: Polynom)
    requires Valid(a)
    requires forall k: nat :: ProductCoeff(b, q, k) + Coeff(r, k) == Coeff(a, k)
    ensures Plus(Times(b, q), r) == a
  {
    SumRestores(a, b, q, r, Times(b, q));
  }

  /** The property the class documents: with `C = A / B` and `D = A % B`,
      `A = B * C + D`, and the remainder's degree is below the divisor's
      (for a constant divisor the remainder is the zero polynomial). Both
      throw exactly for the zero divisor. */
  lemma DivisionTheorem(a: Polynom, b: Polynom)
    requires Valid(a) && Valid(b)
    ensures Div(a, b).Thrown? <==> IsZero(b)
    ensures Rem(a, b).Thrown? <==> IsZero(b)
    ensures !IsZero(b) ==> Plus(Times(b, Div(a, b).value), Rem(a, b).value) == a
    ensures !IsZero(b) && Degree(b) >= 1 ==> Degree(Rem(a, b).value) < Degree(b)
    ensures !IsZero(b) && Degree(b) == 0 ==> IsZero(Rem(a, b).value)
  {
    if !IsZero(b) {
      DividendRestored(a, b);
      DivideParts(a, b);
      var d := Divide(a, b).value;
      RestoresDividend(a, b, d.quotient, d.remainder);
    }
  }

  /** `div` and `rem` are the two halves of `divide`. */
  lemma DivideParts(a: Polynom, b: Polynom)
    requires Valid(b) && !IsZero(b)
    ensures Div(a, b) == Ok(Divide(a, b).value.quotient)
    ensures Rem(a, b) == Ok(Divide(a, b).value.remainder)
  {
  }

  lemma DividendRestored(a: Polynom, b: Polynom)
    requires Valid(a) && Valid(b) && !IsZero(b)
    ensures forall k: nat :: ProductCoeff(b, Divide(a, b).value.quotient, k) + Coeff(Divide(a, b).value.remainder, k) == Coeff(a, k)
  {
    if Degree(b) == 0 {
      ConstantDivision(a, b);
    } else {
      LongDivisionRestores(a, b);
    }
  }

  /** A product of `b` with a nonzero polynomial has a nonzero coefficient
      at some degree at or above `deg b`; so a product that vanishes there
      has the zero polynomial as its other factor. */
  lemma ProductVanishingHigh(b: Polynom, p: Polynom)
    requires Valid(b) && Valid(p) && !IsZero(b)
    requires forall k: nat :: k >= Degree(b) ==> ProductCoeff(b, p, k) == 0.0
    ensures IsZero(p)
  {
    LeadingProduct(b, p);
    ZeroFactor(Coeff(b, Degree(b)), Coeff(p, Degree(p)));
  }

  lemma ZeroFactor(x: real, y: real)
    requires x != 0.0 && x * y == 0.0
    ensures y == 0.0
  {
    assert y == (x * y) / x;
  }

  /** `b * (q1 - q2)` is `r2 - r1`, which vanishes at and above `deg b`. */
  lemma DifferenceVanishesHigh(b: Polynom, q1: Polynom, r1: Polynom, q2: Polynom, r2: Polynom, dq: Polynom)
    requires Valid(r1) && Valid(r2) && Degree(r1) < Degree(b) && Degree(r2) < Degree(b)
    requires forall k: nat :: ProductCoeff(b, q1, k) + Coeff(r1, k) == ProductCoeff(b, q2, k) + Coeff(r2, k)
    requires forall j: nat :: Coeff(dq, j) == Coeff(q1, j) - Coeff(q2, j)
    ensures forall k: nat :: k >= Degree(b) ==> ProductCoeff(b, dq, k) == 0.0
  {
    forall k: nat | k >= Degree(b) ensures ProductCoeff(b, dq, k) == 0.0 {
      ProductRightLinear(b, q2, dq, q1, k);
    }
  }

  /** Two pairs with the same `b * q + r` and remainders below the
      divisor's degree have equal quotients. */
  lemma SameQuotient(b: Polynom, q1: Polynom, r1: Polynom, q2: Polynom, r2: Polynom)
    requires Valid(b) && Degree(b) >= 1 && Valid(q1) && Valid(q2) && Valid(r1) && Valid(r2)
    requires Degree(r1) < Degree(b) && Degree(r2) < Degree(b)
    requires forall k: nat :: ProductCoeff(b, q1, k) + Coeff(r1, k) == ProductCoeff(b, q2, k) + Coeff(r2, k)
    ensures q1 == q2
  {
    var dq := Minus(q1, q2);
    DifferenceVanishesHigh(b, q1, r1, q2, r2, dq);
    ProductVanishingHigh(b, dq);
    SameCoefficients(q1, q2);
  }

  /** The quotient and remainder are the only pair with `A = B * C + D`
      and the remainder's degree below the divisor's. */
  lemma UniqueDivision(b: Polynom, q1: Polynom, r1: Polynom, q2: Polynom, r2: Polynom)
    requires Valid(b) && Degree(b) >= 1 && Valid(q1) && Valid(q2) && Valid(r1) && Valid(r2)
    requires Degree(r1) < Degree(b) && Degree(r2) < Degree(b)
    requires forall k: nat :: ProductCoeff(b, q1, k) + Coeff(r1, k) == ProductCoeff(b, q2, k) + Coeff(r2, k)
    ensures q1 == q2 && r1 == r2
  {
    SameQuotient(b, q1, r1, q2, r2);
    SameCoefficients(r1, r2);
  }

  /** `Plus(t, r)` with `t` the product `b * q` has the coefficients
      `b * q + r`. */
  lemma SumOfProductCoefficients(b: Polynom, q: Polynom, r: Polynom, t: Polynom)
    requires IsProduct(t, b, q)
    ensures forall k: nat :: Coeff(Plus(t, r), k) == ProductCoeff(b, q, k) + Coeff(r, k)
  {
  }

  /** Any `C`, `D` with `A = B * C + D` and the remainder's degree below the
      divisor's are exactly what `div` and `rem` return. */
  lemma DivisionCharacterised(a: Polynom, b: Polynom, q: Polynom, r: Polynom)
    requires Valid(a) && Valid(b) && Valid(q) && Valid(r) && Degree(b) >= 1
    requires Plus(Times(b, q), r) == a && Degree(r) < Degree(b)
    ensures Div(a, b) == Ok(q) && Rem(a, b) == Ok(r)
  {
    var d := Divide(a, b).value;
    LongDivisionRestores(a, b);
    SumOfProductCoefficients(b, q, r, Times(b, q));
    UniqueDivision(b, d.quotient, d.remainder, q, r);
  }
}
