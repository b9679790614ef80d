/** The worked examples of the `Polynom` class comment, stated on the
    model. */
module PolynomExamples {
  import opened Outcomes
  import opened Polynoms
  import opened PolynomDivision

  /** x^2 + 3x + 2, lowest degree first. */
  const P := Polynom([2.0, 3.0, 1.0])
  /** x^3 - 2x^2 - x + 4. */
  const Q := Polynom([4.0, -1.0, -2.0, 1.0])

  /** `Polynom(1.0, 3.0, 2.0)` builds x^2 + 3x + 2. */
  lemma ConstructorExample()
    ensures Of([1.0, 3.0, 2.0]) == P
  {
    assert DropLeadingZeros([1.0, 3.0, 2.0]) == [1.0, 3.0, 2.0];
    assert Reverse([1.0, 3.0, 2.0]) == [2.0, 3.0, 1.0];
  }

  /** `Polynom(1.0, 2.0, 0.0, 1.0)` is x^3 + 2x + 1: a zero in the middle is
      kept, so the x^2 coefficient is 0 and the degree is 3. */
  lemma MiddleZeroKept()
    ensures Of([1.0, 2.0, 0.0, 1.0]) == Polynom([1.0, 0.0, 2.0, 1.0])
    ensures Degree(Of([1.0, 2.0, 0.0, 1.0])) == 3
  {
    assert DropLeadingZeros([1.0, 2.0, 0.0, 1.0]) == [1.0, 2.0, 0.0, 1.0];
    assert Reverse([1.0, 2.0, 0.0, 1.0]) == [1.0, 0.0, 2.0, 1.0];
  }

  /** `Polynom(0.0, 0.0, 5.0, 3.0)` is 5x + 3: leading zeros are ignored. */
  lemma LeadingZerosIgnored()
    ensures Of([0.0, 0.0, 5.0, 3.0]) == Polynom([3.0, 5.0])
  {
    assert DropLeadingZeros([0.0, 0.0, 5.0, 3.0]) == [5.0, 3.0];
    assert Reverse([5.0, 3.0]) == [3.0, 5.0];
  }

  /** 0x^2 + 0x + 2 has degree 0. */
  lemma DegreeIgnoresZeroTerms()
    ensures Degree(Of([0.0, 0.0, 2.0])) == 0
  {
    assert DropLeadingZeros([0.0, 0.0, 2.0]) == [2.0];
  }

  /** (x^2 + 3x + 2) + (x^3 - 2x^2 - x + 4) = x^3 - x^2 + 2x + 6. */
  lemma PlusExample()
    ensures Plus(P, Q) == Polynom([6.0, 2.0, -1.0, 1.0])
  {
    var e := Polynom([6.0, 2.0, -1.0, 1.0]);
    forall k: nat ensures Coeff(P, k) + Coeff(Q, k) == Coeff(e, k) {
      if k == 0 {
      } else if k == 1 {
      } else if k == 2 {
      } else if k == 3 {
      }
    }
    SumIs(P, Q, e);
  }

  lemma SumIs(a: Polynom, b: Polynom, e: Polynom)
    requires Valid(e) && forall k: nat :: Coeff(a, k) + Coeff(b, k) == Coeff(e, k)
    ensures Plus(a, b) == e
  {
    SameCoefficients(Plus(a, b), e);
  }

  /** (x^3 - 2x^2 - x + 4) - (x^2 + 3x + 2) = x^3 - 3x^2 - 4x + 2. */
  lemma MinusExample()
    ensures Minus(Q, P) == Polynom([2.0, -4.0, -3.0, 1.0])
  {
    var e := Polynom([2.0, -4.0, -3.0, 1.0]);
    forall k: nat ensures Coeff(Q, k) - Coeff(P, k) == Coeff(e, k) {
      if k == 0 {
      } else if k == 1 {
      } else if k == 2 {
      } else if k == 3 {
      }
    }
    DifferenceIs(Q, P, e);
  }

  lemma DifferenceIs(a: Polynom, b: Polynom, e: Polynom)
    requires Valid(e) && forall k: nat :: Coeff(a, k) - Coeff(b, k) == Coeff(e, k)
    ensures Minus(a, b) == e
  {
    SameCoefficients(Minus(a, b), e);
  }

  lemma ProductCoefficientsPQ(k: nat)
    requires k <= 5
    ensures ProductCoeff(P, Q, k) == [8.0, 10.0, -3.0, -5.0, 1.0, 1.0][k]
  {
    if k == 0 {
    } else if k == 1 {
    } else if k == 2 {
    } else if k == 3 {
    } else if k == 4 {
    }
  }

  /** (x^2 + 3x + 2) * (x^3 - 2x^2 - x + 4) = x^5 + x^4 - 5x^3 - 3x^2 + 10x + 8. */
  lemma TimesExample()
    ensures Times(P, Q) == Polynom([8.0, 10.0, -3.0, -5.0, 1.0, 1.0])
  {
    var e := Polynom([8.0, 10.0, -3.0, -5.0, 1.0, 1.0]);
    ProductsBeyond(P, Q);
    forall k: nat ensures ProductCoeff(P, Q, k) == Coeff(e, k) {
      if k <= 5 {
        ProductCoefficientsPQ(k);
      }
    }
    TimesIs(P, Q, e);
  }

  /** x - 5. */
  const C := Polynom([-5.0, 1.0])
  /** 12x + 14. */
  const D := Polynom([14.0, 12.0])

  lemma ProductCoefficientsPC(k: nat)
    requires k <= 3
    ensures ProductCoeff(P, C, k) + Coeff(D, k) == Coeff(Q, k)
  {
    if k == 0 {
    } else if k == 1 {
    } else if k == 2 {
    }
  }

  /** (x^2 + 3x + 2) * (x - 5) + (12x + 14) = x^3 - 2x^2 - x + 4. */
  lemma QuotientTimesDivisorPlusRemainder()
    ensures forall k: nat :: ProductCoeff(P, C, k) + Coeff(D, k) == Coeff(Q, k)
  {
    ProductsBeyond(P, C);
    forall k: nat ensures ProductCoeff(P, C, k) + Coeff(D, k) == Coeff(Q, k) {
      if k <= 3 {
        ProductCoefficientsPC(k);
      }
    }
  }

  /** (x^3 - 2x^2 - x + 4) / (x^2 + 3x + 2) = x - 5, and the remainder is
      12x + 14. */
  lemma DivisionExample()
    ensures Div(Q, P) == Ok(C)
    ensures Rem(Q, P) == Ok(D)
  {
    QuotientTimesDivisorPlusRemainder();
    var d := Divide(Q, P).value;
    LongDivisionRestores(Q, P);
    UniqueDivision(P, d.quotient, d.remainder, C, D);
  }

  /** The remainder is not 12x + 16. */
  lemma RemainderIsNotTwelveXPlusSixteen()
    ensures Rem(Q, P) != Ok(Polynom([16.0, 12.0]))
  {
    DivisionExample();
  }

  /** Division by the zero polynomial throws. */
  lemma DivisionByZeroThrows()
    ensures Div(Q, Of([])) == Thrown(Arithmetic(DivideByZeroMessage))
  {
  }
}
