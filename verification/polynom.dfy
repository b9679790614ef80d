/** The polynomial class `Polynom` (src/lesson11/task1/Polynom.kt), with
    exact `real` coefficients in place of `Double`.

    `coeffList` holds the coefficients lowest degree first, as the class
    does; the constructor takes them highest degree first and drops the
    leading zeros, so every value the class builds satisfies `Valid`. The
    arithmetic operators are pure functions that rebuild a polynomial with
    the constructor, as the Kotlin operators do. */
module Polynoms {

  /** One `Polynom` object: its `coeffList`, lowest degree first. */
  datatype Polynom = Polynom(coeffList: seq<real>)

  /** The class invariant: the list is empty (the zero polynomial) or its
      last, highest-degree, coefficient is nonzero. */
  predicate Valid(p: Polynom)
  {
    |p.coeffList| == 0 || p.coeffList[|p.coeffList| - 1] != 0.0
  }

  /** The zero polynomial. */
  predicate IsZero(p: Polynom)
  {
    |p.coeffList| == 0
  }

  function Max(a: int, b: int): int
  {
    if a >= b then a else b
  }

  /** `reversed()` on a list or array. */
  function Reverse(s: seq<real>): (r: seq<real>)
    ensures |r| == |s|
    ensures forall i :: 0 <= i < |s| ==> r[i] == s[|s| - 1 - i]
  {
    seq(|s|, i requires 0 <= i < |s| => s[|s| - 1 - i])
  }

  /** `dropWhile { it == 0.0 }`. */
  function DropLeadingZeros(s: seq<real>): (r: seq<real>)
    ensures |r| <= |s|
    ensures forall i :: 0 <= i < |r| ==> r[i] == s[|s| - |r| + i]
    ensures |r| == 0 || r[0] != 0.0
    ensures forall i :: 0 <= i < |s| - |r| ==> s[i] == 0.0
  {
    if |s| > 0 && s[0] == 0.0 then DropLeadingZeros(s[1..]) else s
  }

  /** `coeff(i)`: the coefficient of x^i, 0 past the end of the list. */
  function Coeff(p: Polynom, i: nat): (c: real)
    ensures c != 0.0 ==> i < |p.coeffList|
  {
    if i < |p.coeffList| then p.coeffList[i] else 0.0
  }

  /** The constructor `Polynom(vararg coeffs)`: `coeffs` runs from the
      highest degree down to x^0; the polynomial has exactly these
      coefficients, and its list ends in a nonzero value. */
  function Of(coeffs: seq<real>): (p: Polynom)
    ensures Valid(p)
    ensures |p.coeffList| <= |coeffs|
    ensures forall i: nat :: i < |coeffs| ==> Coeff(p, i) == coeffs[|coeffs| - 1 - i]
    ensures forall i: nat :: i >= |coeffs| ==> Coeff(p, i) == 0.0
  {
    assert forall i: nat :: Coeff(Polynom(Reverse(DropLeadingZeros(coeffs))), i) == if i < |coeffs| then coeffs[|coeffs| - 1 - i] else 0.0 by {
      forall i: nat { KeptCoefficient(coeffs, i); }
    }
    Polynom(Reverse(DropLeadingZeros(coeffs)))
  }

  lemma KeptCoefficient(coeffs: seq<real>, i: nat)
    ensures Coeff(Polynom(Reverse(DropLeadingZeros(coeffs))), i) == if i < |coeffs| then coeffs[|coeffs| - 1 - i] else 0.0
  {
    var r := DropLeadingZeros(coeffs);
    SuffixReversed(coeffs, r, Reverse(r), i);
  }

  /** Reading a list of zeros followed by `r` from the back, as a
      polynomial built from `r` reversed. */
  lemma SuffixReversed(coeffs: seq<real>, r: seq<real>, c: seq<real>, i: nat)
    requires |r| <= |coeffs|
    requires forall j :: 0 <= j < |r| ==> r[j] == coeffs[|coeffs| - |r| + j]
    requires forall j :: 0 <= j < |coeffs| - |r| ==> coeffs[j] == 0.0
    requires |c| == |r| && forall j :: 0 <= j < |r| ==> c[j] == r[|r| - 1 - j]
    ensures Coeff(Polynom(c), i) == if i < |coeffs| then coeffs[|coeffs| - 1 - i] else 0.0
  {
    if i < |r| {
      assert c[i] == r[|r| - 1 - i];
    } else if i < |coeffs| {
      assert |coeffs| - 1 - i < |coeffs| - |r|;
    }
  }

  /** Two valid polynomials with the same coefficient at every degree are
      the same value. */
  lemma SameCoefficients(p: Polynom, q: Polynom)
    requires Valid(p) && Valid(q)
    requires forall k: nat :: Coeff(p, k) == Coeff(q, k)
    ensures p == q
  {
    if |p.coeffList| > 0 {
      assert Coeff(q, |p.coeffList| - 1) != 0.0;
    }
    if |q.coeffList| > 0 {
      assert Coeff(p, |q.coeffList| - 1) != 0.0;
    }
    assert |p.coeffList| == |q.coeffList|;
    forall i | 0 <= i < |p.coeffList| ensures p.coeffList[i] == q.coeffList[i] {
      assert Coeff(p, i) == Coeff(q, i);
    }
  }

  /** A valid polynomial whose coefficients vanish from degree `n` on has
      at most `n` coefficients. */
  lemma ShortIfHighZero(p: Polynom, n: nat)
    requires Valid(p)
    requires forall k: nat :: k >= n ==> Coeff(p, k) == 0.0
    ensures |p.coeffList| <= n
  {
    if |p.coeffList| > 0 {
      assert Coeff(p, |p.coeffList| - 1) != 0.0;
    }
  }

  /** `degree()`: `maxOf(0, coeffList.lastIndex)`. It is the highest degree
      with a nonzero coefficient, and 0 for the zero polynomial. */
  function Degree(p: Polynom): (d: nat)
    ensures forall i: nat :: i > d ==> Coeff(p, i) == 0.0
    ensures Valid(p) && !IsZero(p) ==> Coeff(p, d) != 0.0
    ensures IsZero(p) ==> d == 0
  {
    Max(0, |p.coeffList| - 1)
  }

  /** `equals(other)`: the coefficient lists are equal. For valid
      polynomials this holds exactly when the coefficients agree at every
      degree. */
  function Equals(p: Polynom, q: Polynom): (b: bool)
    ensures b <==> p == q
    ensures Valid(p) && Valid(q) ==> (b <==> forall k: nat :: Coeff(p, k) == Coeff(q, k))
  {
    assert Valid(p) && Valid(q) && (forall k: nat :: Coeff(p, k) == Coeff(q, k)) ==> p == q by {
      if Valid(p) && Valid(q) && (forall k: nat :: Coeff(p, k) == Coeff(q, k)) {
        SameCoefficients(p, q);
      }
    }
    p.coeffList == q.coeffList
  }

  // ---------------------------------------------------------------------
  // plus, unaryMinus, minus

  /** `coeff(i) + other.coeff(i)` for `i` from 0 to the larger degree. */
  function SumList(a: Polynom, b: Polynom): seq<real>
  {
    seq(Max(Degree(a), Degree(b)) + 1, i requires 0 <= i <= Max(Degree(a), Degree(b)) => Coeff(a, i) + Coeff(b, i))
  }

  lemma SumAt(a: Polynom, b: Polynom, k: nat)
    ensures Coeff(Of(Reverse(SumList(a, b))), k) == Coeff(a, k) + Coeff(b, k)
  {
    var s := SumList(a, b);
    ReversedAt(s, k);
    if k < |s| {
      assert s[k] == Coeff(a, k) + Coeff(b, k);
    } else {
      assert k > Degree(a) && k > Degree(b);
    }
  }

  /** `plus`: the sums `coeff(i) + other.coeff(i)` for `i` up to the larger
      degree, handed to the constructor highest degree first. */
  function Plus(a: Polynom, b: Polynom): (r: Polynom)
    ensures Valid(r)
    ensures forall k: nat :: Coeff(r, k) == Coeff(a, k) + Coeff(b, k)
  {
    assert forall k: nat :: Coeff(Of(Reverse(SumList(a, b))), k) == Coeff(a, k) + Coeff(b, k) by {
      forall k: nat { SumAt(a, b, k); }
    }
    Of(Reverse(SumList(a, b)))
  }

  /** `coeffList.map { -it }`. */
  function NegatedList(a: Polynom): seq<real>
  {
    seq(|a.coeffList|, i requires 0 <= i < |a.coeffList| => -a.coeffList[i])
  }

  lemma NegatedAt(a: Polynom, k: nat)
    ensures Coeff(Of(Reverse(NegatedList(a))), k) == -Coeff(a, k)
  {
    var s := NegatedList(a);
    ReversedAt(s, k);
    if k < |s| {
      assert s[k] == -Coeff(a, k);
    }
  }

  /** `unaryMinus`: every coefficient negated. */
  function Neg(a: Polynom): (r: Polynom)
    ensures Valid(r)
    ensures forall k: nat :: Coeff(r, k) == -Coeff(a, k)
  {
    assert forall k: nat :: Coeff(Of(Reverse(NegatedList(a))), k) == -Coeff(a, k) by {
      forall k: nat { NegatedAt(a, k); }
    }
    Of(Reverse(NegatedList(a)))
  }

  /** `minus`: `this + (-other)`. */
  function Minus(a: Polynom, b: Polynom): (r: Polynom)
    ensures Valid(r)
    ensures forall k: nat :: Coeff(r, k) == Coeff(a, k) - Coeff(b, k)
  {
    Plus(a, Neg(b))
  }

  /** Rebuilding a polynomial from its own list, highest degree first,
      gives it back: the constructor inverts `coeffList`. */
  lemma ConstructorRoundTrip(p: Polynom)
    requires Valid(p)
    ensures Of(Reverse(p.coeffList)) == p
  {
    CopyCoefficients(p);
    SameCoefficients(Of(Reverse(p.coeffList)), p);
  }

  /** `Polynom(*coeffList.reversed().toDoubleArray())` copies the
      coefficients. */
  lemma CopyCoefficients(a: Polynom)
    ensures forall k: nat :: Coeff(Of(Reverse(a.coeffList)), k) == Coeff(a, k)
  {
    forall k: nat ensures Coeff(Of(Reverse(a.coeffList)), k) == Coeff(a, k) {
      CopyAt(a, k);
    }
  }

  lemma CopyAt(a: Polynom, k: nat)
    ensures Coeff(Of(Reverse(a.coeffList)), k) == Coeff(a, k)
  {
    ReversedAt(a.coeffList, k);
  }

  /** Subtraction undoes addition. */
  lemma MinusUndoesPlus(a: Polynom, b: Polynom)
    requires Valid(a)
    ensures Minus(Plus(a, b), b) == a
  {
    var s := Plus(a, b);
    assert forall k: nat :: Coeff(Minus(s, b), k) == Coeff(a, k);
    SameCoefficients(Minus(s, b), a);
  }

  /** Negating twice gives the polynomial back. */
  lemma NegInvolutive(a: Polynom)
    requires Valid(a)
    ensures Neg(Neg(a)) == a
  {
    var n := Neg(Neg(a));
    assert forall k: nat :: Coeff(n, k) == Coeff(a, k);
    SameCoefficients(n, a);
  }

  /** Addition does not depend on the order of the operands. */
  lemma PlusCommutes(a: Polynom, b: Polynom)
    ensures Plus(a, b) == Plus(b, a)
  {
    var p, q := Plus(a, b), Plus(b, a);
    assert forall k: nat :: Coeff(p, k) == Coeff(q, k);
    SameCoefficients(p, q);
  }

  /** A polynomial minus itself is the zero polynomial. */
  lemma MinusSelfIsZero(a: Polynom)
    ensures IsZero(Minus(a, a))
  {
    ShortIfHighZero(Minus(a, a), 0);
  }

  /** The sum's degree is at most the larger of the two degrees. */
  lemma DegreeOfSum(a: Polynom, b: Polynom)
    ensures Degree(Plus(a, b)) <= Max(Degree(a), Degree(b))
  {
    ShortIfHighZero(Plus(a, b), Max(Degree(a), Degree(b)) + 1);
  }

  // ---------------------------------------------------------------------
  // times

  /** The sum over `i < n` with `i <= k` of `coeff_a(i) * coeff_b(k - i)`. */
  function ConvSum(a: Polynom, b: Polynom, k: nat, n: nat): real
  {
    if n == 0 then 0.0
    else ConvSum(a, b, k, n - 1) + (if n - 1 <= k then Coeff(a, n - 1) * Coeff(b, k - (n - 1)) else 0.0)
  }

  /** The coefficient of x^k in the product of `a` and `b`: the sum of
      `coeff_a(i) * coeff_b(j)` over all `i + j == k`. */
  function ProductCoeff(a: Polynom, b: Polynom, k: nat): real
  {
    ConvSum(a, b, k, k + 1)
  }

  /** Terms from index `n` on are zero once `n` passes the end of `a` or
      passes `k`. */
  lemma {:induction false} ConvSumTail(a: Polynom, b: Polynom, k: nat, n: nat, m: nat)
    requires n <= m && (n >= |a.coeffList| || n > k)
    ensures ConvSum(a, b, k, m) == ConvSum(a, b, k, n)
  {
    if n < m {
      ConvSumTail(a, b, k, n, m - 1);
    }
  }

  /** Every term vanishes at a degree `k` beyond both lists together. */
  lemma {:induction false} ConvSumBeyond(a: Polynom, b: Polynom, k: nat, n: nat)
    requires k + 1 >= |a.coeffList| + |b.coeffList|
    ensures ConvSum(a, b, k, n) == 0.0
  {
    if n > 0 {
      ConvSumBeyond(a, b, k, n - 1);
      if n - 1 <= k && n - 1 < |a.coeffList| {
        assert Coeff(b, k - (n - 1)) == 0.0;
      }
    }
  }

  /** Every product coefficient above `deg a + deg b` is zero. */
  lemma ProductsBeyond(a: Polynom, b: Polynom)
    ensures forall k: nat :: k > Degree(a) + Degree(b) ==> ProductCoeff(a, b, k) == 0.0
  {
    forall k: nat | k > Degree(a) + Degree(b) ensures ProductCoeff(a, b, k) == 0.0 {
      ConvSumBeyond(a, b, k, k + 1);
    }
  }

  /** The first `deg a + deg b + 1` product coefficients, lowest first. */
  function ProductList(a: Polynom, b: Polynom): seq<real>
  {
    seq(Degree(a) + Degree(b) + 1, k requires 0 <= k <= Degree(a) + Degree(b) => ProductCoeff(a, b, k))
  }

  lemma ProductListCoefficients(a: Polynom, b: Polynom)
    ensures forall k: nat :: Coeff(Of(Reverse(ProductList(a, b))), k) == ProductCoeff(a, b, k)
  {
    var s := ProductList(a, b);
    ProductsBeyond(a, b);
    forall k: nat ensures Coeff(Of(Reverse(s)), k) == ProductCoeff(a, b, k) {
      ReversedAt(s, k);
    }
  }

  /** `t` has the coefficients of the product of `a` and `b`. */
  ghost predicate IsProduct(t: Polynom, a: Polynom, b: Polynom)
  {
    forall k: nat :: Coeff(t, k) == ProductCoeff(a, b, k)
  }

  /** `times`, as a value: the polynomial whose coefficient at x^k is the
      convolution sum of the two factors' coefficients. */
  function Times(a: Polynom, b: Polynom): (r: Polynom)
    ensures Valid(r)
    ensures IsProduct(r, a, b)
  {
    ProductListCoefficients(a, b);
    Of(Reverse(ProductList(a, b)))
  }

  /** The only term of the convolution at degree `deg b + deg p` that
      survives is the product of the two leading coefficients. */
  lemma {:induction false} ConvSumTop(b: Polynom, p: Polynom, n: nat)
    ensures ConvSum(b, p, Degree(b) + Degree(p), n)
         == if n > Degree(b) then Coeff(b, Degree(b)) * Coeff(p, Degree(p)) else 0.0
  {
    if n > 0 {
      ConvSumTop(b, p, n - 1);
      var k := Degree(b) + Degree(p);
      if n - 1 < Degree(b) {
        assert Coeff(p, k - (n - 1)) == 0.0;
      } else if n - 1 > Degree(b) {
        assert Coeff(b, n - 1) == 0.0;
      }
    }
  }

  /** The product's coefficient at `deg b + deg p` is the product of the
      leading coefficients. */
  lemma LeadingProduct(b: Polynom, p: Polynom)
    ensures ProductCoeff(b, p, Degree(b) + Degree(p)) == Coeff(b, Degree(b)) * Coeff(p, Degree(p))
  {
    ConvSumTop(b, p, Degree(b) + Degree(p) + 1);
  }

  lemma NonzeroProduct(x: real, y: real)
    requires x != 0.0 && y != 0.0
    ensures x * y != 0.0
  {
  }

  /** The degree of a product of nonzero polynomials is the sum of their
      degrees. */
  lemma DegreeOfProduct(a: Polynom, b: Polynom)
    requires Valid(a) && Valid(b) && !IsZero(a) && !IsZero(b)
    ensures Degree(Times(a, b)) == Degree(a) + Degree(b)
  {
    ProductDegree(a, b, Times(a, b));
  }

  lemma ProductDegree(a: Polynom, b: Polynom, t: Polynom)
    requires Valid(a) && Valid(b) && !IsZero(a) && !IsZero(b)
    requires Valid(t) && IsProduct(t, a, b)
    ensures Degree(t) == Degree(a) + Degree(b)
  {
    LeadingProduct(a, b);
    NonzeroProduct(Coeff(a, Degree(a)), Coeff(b, Degree(b)));
    assert Coeff(t, Degree(a) + Degree(b)) != 0.0;
    ProductsBeyond(a, b);
    ShortIfHighZero(t, Degree(a) + Degree(b) + 1);
  }

  /** A valid polynomial with the convolution coefficients of `a` and `b`
      is their product. */
  lemma TimesIs(a: Polynom, b: Polynom, e: Polynom)
    requires Valid(e) && forall k: nat :: ProductCoeff(a, b, k) == Coeff(e, k)
    ensures Times(a, b) == e
  {
    ProductIs(a, b, e, Times(a, b));
  }

  lemma ProductIs(a: Polynom, b: Polynom, e: Polynom, t: Polynom)
    requires Valid(e) && Valid(t) && IsProduct(t, a, b)
    requires forall k: nat :: ProductCoeff(a, b, k) == Coeff(e, k)
    ensures t == e
  {
    SameCoefficients(t, e);
  }

  /** Row `i` of the nested loop adds `a[i] * b[k - i]` to every `k` it
      reaches, and those are exactly the new terms of the convolution sum. */
  lemma RowAdvancesSum(a: Polynom, b: Polynom, i: nat, k: nat)
    requires i < |a.coeffList|
    ensures ConvSum(a, b, k, i + 1)
         == ConvSum(a, b, k, i) + (if i <= k < i + |b.coeffList| then a.coeffList[i] * b.coeffList[k - i] else 0.0)
  {
    if i <= k && k - i >= |b.coeffList| {
      assert Coeff(b, k - i) == 0.0;
    }
  }

  /** Summing over every row of `a` gives the product coefficient. */
  lemma FullSum(a: Polynom, b: Polynom, k: nat)
    ensures ConvSum(a, b, k, |a.coeffList|) == ProductCoeff(a, b, k)
  {
    if |a.coeffList| <= k + 1 {
      ConvSumTail(a, b, k, |a.coeffList|, k + 1);
    } else {
      ConvSumTail(a, b, k, k + 1, |a.coeffList|);
    }
  }

  /** Once the accumulator holds the full convolution sums, the
      constructor turns it into the product's coefficients. */
  lemma AccumulatedCoefficients(a: Polynom, b: Polynom, res: seq<real>)
    requires |res| == Degree(a) + Degree(b) + 1
    requires forall k :: 0 <= k < |res| ==> res[k] == ConvSum(a, b, k, |a.coeffList|)
    ensures forall k: nat :: Coeff(Of(Reverse(res)), k) == ProductCoeff(a, b, k)
  {
    forall k: nat ensures Coeff(Of(Reverse(res)), k) == ProductCoeff(a, b, k) {
      AccumulatedAt(a, b, res, k);
    }
  }

  lemma AccumulatedAt(a: Polynom, b: Polynom, res: seq<real>, k: nat)
    requires |res| == Degree(a) + Degree(b) + 1
    requires k < |res| ==> res[k] == ConvSum(a, b, k, |a.coeffList|)
    ensures Coeff(Of(Reverse(res)), k) == ProductCoeff(a, b, k)
  {
    ReversedAt(res, k);
    if k < |res| {
      FullSum(a, b, k);
    } else {
      ProductsBeyond(a, b);
    }
  }

  /** Building a polynomial from a lowest-first list reversed gives back
      the list's entries as coefficients. */
  lemma ReversedAt(s: seq<real>, k: nat)
    ensures k < |s| ==> Coeff(Of(Reverse(s)), k) == s[k]
    ensures k >= |s| ==> Coeff(Of(Reverse(s)), k) == 0.0
  {
    var c := Reverse(s);
    BackwardsRead(s, c, Of(c), k);
  }

  lemma BackwardsRead(s: seq<real>, c: seq<real>, p: Polynom, k: nat)
    requires |c| == |s| && forall i :: 0 <= i < |s| ==> c[i] == s[|s| - 1 - i]
    requires forall i: nat :: i < |c| ==> Coeff(p, i) == c[|c| - 1 - i]
    requires forall i: nat :: i >= |c| ==> Coeff(p, i) == 0.0
    ensures k < |s| ==> Coeff(p, k) == s[k]
    ensures k >= |s| ==> Coeff(p, k) == 0.0
  {
    if k < |s| {
      assert c[|c| - 1 - k] == s[k];
    }
  }

  lemma AccumulatedProduct(a: Polynom, b: Polynom, res: seq<real>)
    requires |res| == Degree(a) + Degree(b) + 1
    requires forall k :: 0 <= k < |res| ==> res[k] == ConvSum(a, b, k, |a.coeffList|)
    ensures Of(Reverse(res)) == Times(a, b)
  {
    AccumulatedCoefficients(a, b, res);
    SameCoefficients(Of(Reverse(res)), Times(a, b));
  }

  /** The inner `forEachIndexed` of `times` for row `i`: every product
      `coeffList[i] * other.coeffList[j]` added to `res[i + j]`. */
  method AddRow(res: seq<real>, a: Polynom, b: Polynom, i: nat) returns (res': seq<real>)
    requires i < |a.coeffList| && i + |b.coeffList| <= |res|
    ensures |res'| == |res|
    ensures forall k :: 0 <= k < |res| ==>
      res'[k] == res[k] + (if i <= k < i + |b.coeffList| then a.coeffList[i] * b.coeffList[k - i] else 0.0)
  {
    res' := res;
    var j := 0;
    while j < |b.coeffList|
      invariant 0 <= j <= |b.coeffList|
      invariant |res'| == |res|
      invariant forall k :: 0 <= k < |res| ==>
        res'[k] == res[k] + (if i <= k < i + j then a.coeffList[i] * b.coeffList[k - i] else 0.0)
    {
      res' := res'[i + j := res'[i + j] + a.coeffList[i] * b.coeffList[j]];
      j := j + 1;
    }
  }

  /** `times` as written: a list of `degree() + other.degree() + 1` zeros
      into which every product `coeffList[i] * other.coeffList[j]` is added
      at index `i + j`, handed to the constructor highest degree first. */
  method Multiply(a: Polynom, b: Polynom) returns (r: Polynom)
    ensures r == Times(a, b)
  {
    var res := seq(Degree(a) + Degree(b) + 1, _ => 0.0);
    var i := 0;
    while i < |a.coeffList|
      invariant 0 <= i <= |a.coeffList|
      invariant |res| == Degree(a) + Degree(b) + 1
      invariant forall k :: 0 <= k < |res| ==> res[k] == ConvSum(a, b, k, i)
    {
      var next := AddRow(res, a, b, i);
      forall k | 0 <= k < |res| ensures next[k] == ConvSum(a, b, k, i + 1) {
        RowAdvancesSum(a, b, i, k);
      }
      res := next;
      i := i + 1;
    }
    AccumulatedProduct(a, b, res);
    r := Of(Reverse(res));
  }

  // ---------------------------------------------------------------------
  // Products with a single term, and linearity

  /** `m` is the monomial c·x^d. */
  ghost predicate IsMonomial(m: Polynom, c: real, d: nat)
  {
    forall j: nat :: Coeff(m, j) == if j == d then c else 0.0
  }

  /** The polynomial c·x^d built as `times` and `divide` build it: an array
      of `d + 1` zeros with `c` at index `d`, reversed for the constructor. */
  function Monomial(c: real, d: nat): (m: Polynom)
    ensures Valid(m) && IsMonomial(m, c, d)
  {
    var s := seq(d + 1, i requires 0 <= i <= d => if i == d then c else 0.0);
    assert IsMonomial(Of(Reverse(s)), c, d) by {
      forall j: nat { ReversedAt(s, j); }
    }
    Of(Reverse(s))
  }

  lemma {:induction false} ConvSumRightMonomial(b: Polynom, m: Polynom, c: real, d: nat, k: nat, n: nat)
    requires IsMonomial(m, c, d)
    ensures ConvSum(b, m, k, n) == if d <= k && k - d < n then Coeff(b, k - d) * c else 0.0
  {
    if n > 0 {
      ConvSumRightMonomial(b, m, c, d, k, n - 1);
      if n - 1 <= k {
        assert Coeff(m, k - (n - 1)) == if k - (n - 1) == d then c else 0.0;
      }
    }
  }

  lemma {:induction false} ConvSumLeftMonomial(m: Polynom, b: Polynom, c: real, d: nat, k: nat, n: nat)
    requires IsMonomial(m, c, d)
    ensures ConvSum(m, b, k, n) == if d <= k && d < n then c * Coeff(b, k - d) else 0.0
  {
    if n > 0 {
      ConvSumLeftMonomial(m, b, c, d, k, n - 1);
      var term := if n - 1 <= k then Coeff(m, n - 1) * Coeff(b, k - (n - 1)) else 0.0;
      assert ConvSum(m, b, k, n) == ConvSum(m, b, k, n - 1) + term;
      if n - 1 <= k && n - 1 == d {
        assert term == c * Coeff(b, k - d);
      } else if n - 1 <= k {
        assert Coeff(m, n - 1) == 0.0;
        assert term == 0.0;
      }
    }
  }

  /** The product of c·x^d and `b` is `b` shifted up by `d` and scaled by `c`. */
  lemma ProductLeftMonomial(m: Polynom, b: Polynom, c: real, d: nat, k: nat)
    requires IsMonomial(m, c, d)
    ensures ProductCoeff(m, b, k) == if d <= k then c * Coeff(b, k - d) else 0.0
  {
    ConvSumLeftMonomial(m, b, c, d, k, k + 1);
  }

  /** The product of `b` and c·x^d is `b` shifted up by `d` and scaled by `c`. */
  lemma ProductRightMonomial(b: Polynom, m: Polynom, c: real, d: nat, k: nat)
    requires IsMonomial(m, c, d)
    ensures ProductCoeff(b, m, k) == if d <= k then Coeff(b, k - d) * c else 0.0
  {
    ConvSumRightMonomial(b, m, c, d, k, k + 1);
  }

  /** Multiplying by the zero polynomial gives zero coefficients. */
  lemma ProductWithZero(b: Polynom, z: Polynom, k: nat)
    requires IsZero(z)
    ensures ProductCoeff(b, z, k) == 0.0
  {
    assert IsMonomial(z, 0.0, 0);
    ProductRightMonomial(b, z, 0.0, 0, k);
  }

  lemma {:induction false} ConvSumRightLinear(b: Polynom, q: Polynom, m: Polynom, s: Polynom, k: nat, n: nat)
    requires forall j: nat :: Coeff(s, j) == Coeff(q, j) + Coeff(m, j)
    ensures ConvSum(b, s, k, n) == ConvSum(b, q, k, n) + ConvSum(b, m, k, n)
  {
    if n > 0 {
      ConvSumRightLinear(b, q, m, s, k, n - 1);
      if n - 1 <= k {
        var j := k - (n - 1);
        assert Coeff(s, j) == Coeff(q, j) + Coeff(m, j);
        assert Coeff(b, n - 1) * Coeff(s, j) == Coeff(b, n - 1) * Coeff(q, j) + Coeff(b, n - 1) * Coeff(m, j);
      }
    }
  }

  /** The product distributes over a sum on the right. */
  lemma ProductRightLinear(b: Polynom, q: Polynom, m: Polynom, s: Polynom, k: nat)
    requires forall j: nat :: Coeff(s, j) == Coeff(q, j) + Coeff(m, j)
    ensures ProductCoeff(b, s, k) == ProductCoeff(b, q, k) + ProductCoeff(b, m, k)
  {
    ConvSumRightLinear(b, q, m, s, k, k + 1);
  }
}
