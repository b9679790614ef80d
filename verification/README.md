# OpenHashSet and Polynom in Dafny

A Dafny model of two classes of a Kotlin exercise repository, with proofs
of what their comments promise and of what the code actually does.

**`OpenHashSet<T>`** (`src/lesson12/task1/OpenHashSet.kt`) is a set with a
fixed capacity. It stores elements in an array of slots using open
addressing with linear probing. A table is modelled as an immutable value
`OpenHashSet(capacity, elements, size)`, where `elements: seq<Option<T>>`
holds `None` for a `null` slot. Element equality is Dafny's `==`.
`hashCode()` is a parameter `hash: T -> int`, so equal elements always hash
alike. Each operation is given twice (module `OpenHashSets`):

- a pure function saying what the call returns (`AddResult`,
  `ContainsResult`, `EqualsResult`);
- a method that runs the class's own loop (`Add`, `Contains`, `Equals`),
  proved to return exactly that.

Kotlin's `%` is a truncated remainder (`Rem`). A negative hash code that
is not a multiple of the capacity therefore gives a negative index
(`NaturalIndex`), and the array access then throws
`ArrayIndexOutOfBoundsException`. The model returns that exception as a
`Thrown` result. A capacity of 0 makes `contains` compute `% 0`, which
throws `ArithmeticException`. A negative capacity makes the constructor
throw. The module `OpenHashSetProperties` holds the lemmas that relate
several calls.

**`Polynom`** (`src/lesson11/task1/Polynom.kt`) is a polynomial with real
coefficients, stored lowest degree first. Coefficients are exact Dafny
`real`s, not `Double`s. Every operator is a pure function that rebuilds
its result through the constructor `Of`, as the Kotlin operators do:

- module `Polynoms`: the constructor, `coeff`, `degree`, `plus`,
  `unaryMinus`, `minus`, `times` and `equals`;
- module `PolynomDivision`: both `divide` overloads, `div` and `rem`;
- module `PolynomExamples`: the worked examples of the class comment.

`times` is given two ways. `Times` is a reference function whose
coefficients are the convolution sums. `Multiply` is the nested loop the
class runs, proved to return the same polynomial. Long division
(`LongDivision`) terminates because each step makes the remainder's
coefficient list strictly shorter (`LeadingTermCancels`).

Two statements in the class comment do not hold as written:

- The example at `Polynom.kt:17` gives the remainder of
  (x^3-2x^2-x+4) / (x^2+3x+2) as 12x+16. The quotient x-5 is right, but
  the remainder is 12x+14. `PolynomExamples.DivisionExample` proves the
  actual value. `PolynomExamples.RemainderIsNotTwelveXPlusSixteen` proves
  that 12x+16 is not the result.
- The property at `Polynom.kt:123` says the degree of the remainder is
  less than the degree of the divisor. With the class's convention that a
  constant has degree 0, this cannot hold for a constant divisor. There
  the remainder is the zero polynomial, which also has degree 0.
  `PolynomDivision.DivisionTheorem` proves the degree bound for divisors
  of degree at least 1, and a zero remainder for constant divisors.

The files are `outcomes.dfy` (shared `Option`, `Result` and exception
types), `open_hash_set.dfy`, `open_hash_set_properties.dfy`,
`polynom.dfy`, `polynom_division.dfy` and `polynom_examples.dfy`.

## Model

| member | source | states |
|---|---|---|
| `OpenHashSets.Rem` | src/lesson12/task1/OpenHashSet.kt:44 | Kotlin's `%`: `a == Quot(a, m) * m + r` with `-m < r < m`, and `r` is never of the opposite sign to `a` (it is 0 for a multiple of `m`) |
| `OpenHashSets.NaturalIndex` | src/lesson12/task1/OpenHashSet.kt:44 | the first slot `add` and `contains` look at (`hashCode() % capacity`, also line 58) lies strictly between `-capacity` and `capacity`; it is negative exactly when the hash code is negative and not a multiple of the capacity; otherwise it is the hash modulo the capacity, and when negative it is that modulo minus the capacity |
| `OpenHashSets.ProbeIndex` | src/lesson12/task1/OpenHashSet.kt:46 | the slot reached after `d` probe steps from `start` lies in the table and is `(start + d) mod capacity` |
| `OpenHashSets.OffsetOf` | src/lesson12/task1/OpenHashSet.kt:61 | every slot is reached from any start after fewer than `capacity` steps, so one probe cycle visits all slots |
| `OpenHashSets.ProbeStep` | src/lesson12/task1/OpenHashSet.kt:46 | the loop's `(index + 1) % capacity` advances the probe by exactly one step |
| `OpenHashSets.ProbeEmpty` | src/lesson12/task1/OpenHashSet.kt:46 | the probe count it returns reaches an empty slot (when below the capacity), and every earlier step meets an occupied slot |
| `OpenHashSets.NotFullHasEmpty` | src/lesson12/task1/OpenHashSet.kt:43-46 | a table with fewer elements than slots has an empty slot, so the probe loop of `add` terminates |
| `OpenHashSets.ProbeFindsEmpty` | src/lesson12/task1/OpenHashSet.kt:46 | when some slot is empty, the probe from any start stops at the first empty slot in cyclic order |
| `OpenHashSets.FillSlotGrows` | src/lesson12/task1/OpenHashSet.kt:47-48 | storing into an empty slot adds exactly one element, which keeps `size` equal to the number of occupied slots |
| `OpenHashSets.ContentsMembership` | src/lesson12/task1/OpenHashSet.kt:23 | an element is among the table's contents exactly when some slot holds it |
| `OpenHashSets.New` | src/lesson12/task1/OpenHashSet.kt:18-30 | a fresh table has `capacity` empty slots and `size == 0` and satisfies the size invariant; a negative capacity throws `NegativeArraySizeException` |
| `OpenHashSets.IsEmpty` | src/lesson12/task1/OpenHashSet.kt:35 | `isEmpty()` is true exactly when every slot is empty |
| `OpenHashSets.AllEmptyOrNot` | src/lesson12/task1/OpenHashSet.kt:28-35 | no element is stored exactly when every slot is `null`, which is what makes `size == 0` mean "empty" |
| `OpenHashSets.AddResult` | src/lesson12/task1/OpenHashSet.kt:42-50 | `add` keeps the size invariant; it returns false with the table unchanged exactly when the table is full or the natural slot already holds `e`; it throws exactly for a negative natural index; otherwise it stores `e` in the first empty slot at or after the natural index, cyclically, and grows `size` by one |
| `OpenHashSets.AddKeepsIndexOk` | src/lesson12/task1/OpenHashSet.kt:44-48 | `add` never stores an element whose natural index is negative (it throws first), so every table built by `add` calls has a non-negative natural index for every stored element |
| `OpenHashSets.Add` | src/lesson12/task1/OpenHashSet.kt:42-50 | the class's probe loop, `(index + 1) % capacity` until a `null` slot, terminates and returns exactly what `AddResult` describes |
| `OpenHashSets.ContainsResult` | src/lesson12/task1/OpenHashSet.kt:55-63 | `contains(e)` throws exactly when the capacity is 0 (an `ArithmeticException`) or the natural index is negative (an index exception carrying that index); otherwise it returns whether `e` is among the stored elements |
| `OpenHashSets.Contains` | src/lesson12/task1/OpenHashSet.kt:55-63 | the full-cycle scan of `containsObject` returns true exactly when some slot holds `e`; it throws for capacity 0 and for a negative natural index |
| `OpenHashSets.ScanOther` | src/lesson12/task1/OpenHashSet.kt:78-80 | the loop over the other table's slots returns true only when this table holds every element found there; when no `contains` call throws, it returns exactly that |
| `OpenHashSets.EqualsResult` | src/lesson12/task1/OpenHashSet.kt:70-83 | `equals` is true for the same object; otherwise it is true exactly when the sizes match and every element of `other` is in `this`, unless some `contains` call throws |
| `OpenHashSets.Equals` | src/lesson12/task1/OpenHashSet.kt:70-83 | the class's loop of `equals` returns exactly what `EqualsResult` describes |
| `OpenHashSets.AddDistinct` | src/lesson12/task1/OpenHashSet.kt:10 | an `add` that first searches the whole table succeeds exactly when the table is not full, `e` is absent and its natural index is non-negative, and it keeps a duplicate-free table duplicate-free |
| `OpenHashSets.AddOfAbsentKeepsDistinct` | src/lesson12/task1/OpenHashSet.kt:42-49 | a successful `add` of an element that no slot holds stores it and keeps a duplicate-free table duplicate-free |
| `OpenHashSets.HashCode` | src/lesson12/task1/OpenHashSet.kt:85 | `hashCode()`, summed over the array with empty slots adding 0, is the sum of the stored elements' hashes |
| `OpenHashSetProperties.SumHashesPermutation` | src/lesson12/task1/OpenHashSet.kt:85 | the hash sum does not depend on the order of the elements |
| `OpenHashSetProperties.FullTableRejects` | src/lesson12/task1/OpenHashSet.kt:43 | on a full table every slot is occupied, and `add` returns false with the table unchanged |
| `OpenHashSetProperties.AddMembership` | src/lesson12/task1/OpenHashSet.kt:46-49 | after `add`, a slot holds `x` exactly when one did before, or when `x` is the element just added and `add` returned true |
| `OpenHashSetProperties.AddThenContains` | src/lesson12/task1/OpenHashSet.kt:42-62 | after `add(e)` returns true, `contains(e)` returns true |
| `OpenHashSetProperties.AddEach` | src/lesson12/task1/OpenHashSet.kt:42-50 | a run of `add` calls keeps the size invariant and the capacity, never loses an element, never exceeds the capacity, and stores only elements it was given |
| `OpenHashSetProperties.NeverAddedNotContained` | src/lesson12/task1/OpenHashSet.kt:55-62 | in a table built by `add` calls from an empty one, an element no call was given, whose natural index is non-negative, is not contained (for any other element `contains` throws) |
| `OpenHashSetProperties.EqualsReflexive` | src/lesson12/task1/OpenHashSet.kt:70-83 | a table whose stored elements all have a non-negative natural index is `equals` to a structurally equal table, even without the `===` shortcut |
| `OpenHashSetProperties.BuiltTableEqualsItself` | src/lesson12/task1/OpenHashSet.kt:42-83 | every table built by `add` calls from a new one is `equals` to a structurally equal table |
| `OpenHashSetProperties.SameElements` | src/lesson12/task1/OpenHashSet.kt:65-83 | two duplicate-free tables related by `equals` hold the same set of elements |
| `OpenHashSetProperties.EqualsSymmetric` | src/lesson12/task1/OpenHashSet.kt:70-83 | on duplicate-free tables, `equals` is symmetric, provided the second table's own elements have non-negative natural indices, as in every table `add` builds |
| `OpenHashSetProperties.DistinctSameMultiset` | src/lesson12/task1/OpenHashSet.kt:65-67 | two repetition-free element lists with the same elements are permutations of each other |
| `OpenHashSetProperties.EqualTablesHashAlike` | src/lesson12/task1/OpenHashSet.kt:85 | duplicate-free tables related by `equals` have equal `hashCode`, whatever slots their elements occupy |
| `OpenHashSetProperties.AddEachDistinct` | src/lesson12/task1/OpenHashSet.kt:42-50 | adding distinct elements absent from a duplicate-free table, with room for all of them and non-negative natural indices, never throws, stores each exactly once, keeps the table duplicate-free, and grows `size` by their number |
| `OpenHashSetProperties.SameInputsEqual` | src/lesson12/task1/OpenHashSet.kt:65-85 | two tables built from new ones by adding the same distinct elements in any order are `equals` and have equal `hashCode` |
| `OpenHashSetProperties.DuplicateSlipsIn` | src/lesson12/task1/OpenHashSet.kt:45-47 | with capacity 3 and `x != e` both hashing to slot 0, the calls `add(x)`, `add(e)`, `add(e)` all return true, and the last one stores `e` a second time |
| `OpenHashSetProperties.DuplicateBreaksEquals` | src/lesson12/task1/OpenHashSet.kt:70-85 | the table holding `e` twice and a table holding `x, e, y` break `equals`: one direction is true, the other false, and their hash codes differ |
| `OpenHashSetProperties.ProbingScenario` | src/lesson12/task1/OpenHashSet.kt:42-62 | in a table of capacity 5, colliding elements go to the next free slots (0, 1, 3, 4), and a lookup of an absent element scans the whole cycle and fails |
| `OpenHashSetProperties.FullScenario` | src/lesson12/task1/OpenHashSet.kt:43 | once a table of capacity 2 holds two elements, a third `add` returns false and changes nothing |
| `Polynoms.DropLeadingZeros` | src/lesson11/task1/Polynom.kt:30 | `dropWhile { it == 0.0 }` returns a suffix of its input that is empty or starts with a nonzero value, and everything it drops is 0 |
| `Polynoms.Coeff` | src/lesson11/task1/Polynom.kt:37-38 | `coeff(i)` reads 0 at every degree past the end of the coefficient list: a nonzero coefficient always comes from within the list |
| `Polynoms.Of` | src/lesson11/task1/Polynom.kt:24-31 | the constructor stores a list that is empty or ends in a nonzero value; the coefficient of x^i is the i-th argument counted from the last, and 0 beyond the arguments |
| `Polynoms.SameCoefficients` | src/lesson11/task1/Polynom.kt:20-22 | two normalised polynomials with the same coefficient at every degree have the same list |
| `Polynoms.ConstructorRoundTrip` | src/lesson11/task1/Polynom.kt:29-31 | passing a polynomial's own list, reversed, to the constructor rebuilds the polynomial |
| `Polynoms.Degree` | src/lesson11/task1/Polynom.kt:49-56 | every coefficient above the degree is 0; a nonzero polynomial has a nonzero coefficient at its degree; the zero polynomial has degree 0 |
| `Polynoms.Equals` | src/lesson11/task1/Polynom.kt:136-140 | `equals` is value equality, and for normalised polynomials it holds exactly when every coefficient agrees |
| `Polynoms.Plus` | src/lesson11/task1/Polynom.kt:61-67 | the sum is normalised, and its coefficient at every degree is the sum of the operands' coefficients |
| `Polynoms.PlusCommutes` | src/lesson11/task1/Polynom.kt:61-67 | addition does not depend on the order of the operands |
| `Polynoms.DegreeOfSum` | src/lesson11/task1/Polynom.kt:61-67 | the degree of a sum is at most the larger operand degree |
| `Polynoms.Neg` | src/lesson11/task1/Polynom.kt:72 | `unaryMinus` is normalised, and every coefficient is negated |
| `Polynoms.NegInvolutive` | src/lesson11/task1/Polynom.kt:72 | negating twice gives the polynomial back |
| `Polynoms.Minus` | src/lesson11/task1/Polynom.kt:77 | the difference is normalised, and its coefficient at every degree is the difference of the operands' coefficients |
| `Polynoms.MinusUndoesPlus` | src/lesson11/task1/Polynom.kt:77 | `(a + b) - b == a` |
| `Polynoms.MinusSelfIsZero` | src/lesson11/task1/Polynom.kt:77 | `a - a` is the zero polynomial |
| `Polynoms.ProductsBeyond` | src/lesson11/task1/Polynom.kt:83 | no product coefficient is nonzero above `deg a + deg b`, so the result list of `times` is long enough |
| `Polynoms.Times` | src/lesson11/task1/Polynom.kt:82-90 | the product is normalised, and its coefficient at x^k is the sum of `a.coeff(i) * b.coeff(j)` over `i + j == k` |
| `Polynoms.AddRow` | src/lesson11/task1/Polynom.kt:85-87 | the inner loop adds `coeffList[i] * other.coeffList[j]` at index `i + j` for every `j`, and leaves every other entry as it was |
| `Polynoms.Multiply` | src/lesson11/task1/Polynom.kt:82-90 | the nested loop of `times` returns the convolution product `Times(a, b)` |
| `Polynoms.LeadingProduct` | src/lesson11/task1/Polynom.kt:82-90 | the product's coefficient at `deg a + deg b` is the product of the leading coefficients |
| `Polynoms.DegreeOfProduct` | src/lesson11/task1/Polynom.kt:82-90 | the degree of a product of nonzero polynomials is the sum of their degrees |
| `Polynoms.Monomial` | src/lesson11/task1/Polynom.kt:100-103 | the multiplier built from an array with `c` at index `d` and zeros elsewhere is c·x^d |
| `PolynomDivision.Multiplier` | src/lesson11/task1/Polynom.kt:98-103 | the step's multiplier is the remainder's leading coefficient over the divisor's, at the difference of their degrees |
| `PolynomDivision.LeadingTermCancels` | src/lesson11/task1/Polynom.kt:97-106 | subtracting multiplier times divisor makes the remainder's list strictly shorter, so the division loop terminates |
| `PolynomDivision.LongDivision` | src/lesson11/task1/Polynom.kt:95-107 | the loop stops with a normalised remainder of lower degree than the divisor |
| `PolynomDivision.LongDivisionKeepsDividend` | src/lesson11/task1/Polynom.kt:97-106 | each loop step, and so the whole loop, keeps `divisor * quotient + remainder` unchanged |
| `PolynomDivision.DivideByNumber` | src/lesson11/task1/Polynom.kt:110-115 | a zero divisor throws `ArithmeticException("Cannot divide by zero")`; otherwise every coefficient is divided by `n` and the remainder is zero |
| `PolynomDivision.Divide` | src/lesson11/task1/Polynom.kt:93-108 | `divide` throws exactly for the zero divisor; a constant divisor leaves a zero remainder; a divisor of degree at least 1 leaves a remainder of lower degree |
| `PolynomDivision.Div` | src/lesson11/task1/Polynom.kt:125 | `div` throws exactly for the zero divisor and otherwise returns a normalised quotient |
| `PolynomDivision.Rem` | src/lesson11/task1/Polynom.kt:130 | `rem` throws exactly for the zero divisor; otherwise the remainder's degree is below the divisor's (degree at least 1), or the remainder is zero (constant divisor) |
| `PolynomDivision.DivisionTheorem` | src/lesson11/task1/Polynom.kt:117-130 | with `C = A / B` and `D = A % B`: `B * C + D == A`; `deg D < deg B` when `deg B >= 1`; `D` is zero for a constant `B`; both throw exactly when `B` is zero |
| `PolynomDivision.UniqueDivision` | src/lesson11/task1/Polynom.kt:123 | two quotient and remainder pairs with the same `B * C + D` and remainders below `deg B` are equal |
| `PolynomDivision.DivisionCharacterised` | src/lesson11/task1/Polynom.kt:120-130 | any `C`, `D` with `A == B * C + D` and `deg D < deg B` are exactly what `div` and `rem` return |
| `PolynomExamples.ConstructorExample` | src/lesson11/task1/Polynom.kt:14 | `Polynom(1.0, 3.0, 2.0)` is x^2+3x+2 |
| `PolynomExamples.MiddleZeroKept` | src/lesson11/task1/Polynom.kt:21 | `Polynom(1.0, 2.0, 0.0, 1.0)` keeps its middle zero: it is x^3+2x+1, of degree 3 |
| `PolynomExamples.LeadingZerosIgnored` | src/lesson11/task1/Polynom.kt:22 | `Polynom(0.0, 0.0, 5.0, 3.0)` is 5x+3 |
| `PolynomExamples.DegreeIgnoresZeroTerms` | src/lesson11/task1/Polynom.kt:53-54 | 0x^2+0x+2 has degree 0 |
| `PolynomExamples.PlusExample` | src/lesson11/task1/Polynom.kt:14 | (x^2+3x+2) + (x^3-2x^2-x+4) = x^3-x^2+2x+6 |
| `PolynomExamples.MinusExample` | src/lesson11/task1/Polynom.kt:15 | (x^3-2x^2-x+4) - (x^2+3x+2) = x^3-3x^2-4x+2 |
| `PolynomExamples.TimesExample` | src/lesson11/task1/Polynom.kt:16 | (x^2+3x+2) * (x^3-2x^2-x+4) = x^5+x^4-5x^3-3x^2+10x+8 |
| `PolynomExamples.QuotientTimesDivisorPlusRemainder` | src/lesson11/task1/Polynom.kt:17 | (x^2+3x+2)(x-5) + (12x+14) = x^3-2x^2-x+4 |
| `PolynomExamples.DivisionExample` | src/lesson11/task1/Polynom.kt:17 | (x^3-2x^2-x+4) / (x^2+3x+2) is x-5, and the remainder is 12x+14 |
| `PolynomExamples.RemainderIsNotTwelveXPlusSixteen` | src/lesson11/task1/Polynom.kt:17 | the remainder stated in the comment, 12x+16, is not what `rem` returns |
| `PolynomExamples.DivisionByZeroThrows` | src/lesson11/task1/Polynom.kt:111 | dividing by the zero polynomial throws `ArithmeticException("Cannot divide by zero")` |

## Left out

- `Polynom.getValue` (`Polynom.kt:44-46`) and the example at `Polynom.kt:18`: they rely on `Double.pow`, which is floating-point numerics.
- IEEE-754 behaviour of `Double` coefficients: rounding, NaN, and the `-0.0` case. With `Double`s the leading coefficient at `Polynom.kt:99-105` need not cancel exactly, so termination of the division loop holds only in the exact model. `equals` compares lists with `Double.equals`, which tells `-0.0` from `0.0`; over `real` these are the same value.
- `Polynom.hashCode` (`Polynom.kt:146`): it delegates to the library's `List.hashCode`.
- `coeff(i)` with a negative `i`, which makes the list access throw: `Coeff` takes `i: nat`.
- `Polynoms.Coeff`: the contract states only that degrees past the end of the list read 0; that a degree within the list reads the stored value is left to the definition, because that clause, attached to every use of `Coeff`, makes the proofs that quantify over coefficients too costly.
- Null elements and null queries in `OpenHashSet`: `T` ranges over non-null values (`containsObject(null)` is true whenever some slot is empty).
- Kotlin `Int` overflow in `hashCode`'s `sumOf` (`OpenHashSet.kt:85`) and in hash codes in general: hashes are unbounded `int`s. Addition stays commutative under wrap-around, so `EqualTablesHashAlike` is unaffected.
- The `other !is Polynom` test in `Polynom.equals` (`Polynom.kt:138`): `equals` is modelled only between two `Polynom` values, and the `this === other` shortcut agrees with value equality.
- The `javaClass` check in `equals` (`OpenHashSet.kt:72`): `equals` is modelled only between two `OpenHashSet` values. The `this === other` test becomes a boolean parameter `identical`, which the caller may set only for the same value.
- The mutation of the table in place: `add` returns the new table as a value rather than updating an array.
- `OpenHashSetProperties.EqualsSymmetric`: requires both tables to be duplicate-free, which `add` does not guarantee (see Findings; `DuplicateBreaksEquals` shows symmetry failing without it). It also requires every element of the second table to have a non-negative natural index (`AllIndexOk`); this excludes no table that `add` builds (`AddKeepsIndexOk`).
- `OpenHashSetProperties.EqualsReflexive`: requires every stored element to have a non-negative natural index, which excludes no table that `add` builds (`BuiltTableEqualsItself` drops the hypothesis for such tables).

## Findings

| source | as written | input that shows it | evidently intended | confidence | as-written member | corrected member |
|---|---|---|---|---|---|---|
| src/lesson12/task1/OpenHashSet.kt:45 | `add` looks for the element only in its natural slot before probing for an empty slot, so an element stored further along the probe chain is stored again | capacity 3; `x != e`, both with hash code 0; `add(x)`, `add(e)`, `add(e)` all return true and the table holds `e` twice | the class comment (line 10): a table never holds two equal elements, so `add` returns false for an element anywhere in the table | high, not executed | `OpenHashSetProperties.DuplicateSlipsIn` | `OpenHashSets.AddDistinct` |
