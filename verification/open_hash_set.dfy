/** The fixed-capacity hash set `OpenHashSet<T>` with open addressing and
    linear probing (src/lesson12/task1/OpenHashSet.kt).

    A table is an immutable value. Each operation of the Kotlin class is
    given twice: a pure function that says what the operation returns
    (`AddResult`, `ContainsResult`, `EqualsResult`), and a method that
    performs the class's own loop (`Add`, `Contains`, `Equals`) and is proved
    to return exactly that. The lemmas in `OpenHashSetProperties` are stated
    on the functions. Element equality is Dafny's `==` and `hash` stands for
    `hashCode()`, so equal elements always have equal hashes. */
module OpenHashSets {
  import opened Outcomes

  /** One `OpenHashSet<T>` object: `elements` is the backing array, with
      `None` for a `null` slot, and `size` is the `sizeImpl` counter. */
  datatype OpenHashSet<T> = OpenHashSet(capacity: int, elements: seq<Option<T>>, size: int)

  /** The elements held by the slots, in slot order, empty slots skipped. */
  function Contents<T>(s: seq<Option<T>>): (c: seq<T>)
    ensures |c| <= |s|
  {
    if |s| == 0 then []
    else (if s[0].Some? then [s[0].value] else []) + Contents(s[1..])
  }

  /** The class invariant: the array has `capacity` slots and `size` counts
      the occupied ones. */
  predicate Valid<T>(t: OpenHashSet<T>)
  {
    && 0 <= t.capacity
    && |t.elements| == t.capacity
    && t.size == |Contents(t.elements)|
  }

  /** No two occupied slots hold equal elements: what the class comment
      promises of every table. */
  predicate SlotsDistinct<T(==)>(s: seq<Option<T>>)
  {
    forall i, j :: 0 <= i < j < |s| && s[i].Some? ==> s[i] != s[j]
  }

  // ---------------------------------------------------------------------
  // Index arithmetic

  /** Kotlin's `a / m` on `Int`: division truncated toward zero. */
  function Quot(a: int, m: int): int
    requires m > 0
  {
    if a >= 0 then a / m else -((-a) / m)
  }

  /** Kotlin's `a % m` on `Int`: the remainder left by `Quot`, which carries
      the sign of `a` (Dafny's own `%` never returns a negative value). */
  function Rem(a: int, m: int): (r: int)
    requires m > 0
    ensures a == Quot(a, m) * m + r
    ensures -m < r < m
    ensures a >= 0 ==> r >= 0
    ensures a <= 0 ==> r <= 0
  {
    if a >= 0 then a % m else -((-a) % m)
  }

  /** The slot `add` and `contains` look at first: `hashCode() % capacity`.
      It is the hash reduced modulo the capacity, except that a negative
      hash which is not a multiple of the capacity gives a negative index. */
  function NaturalIndex<T>(t: OpenHashSet<T>, e: T, hash: T -> int): (i: int)
    requires t.capacity > 0
    ensures -t.capacity < i < t.capacity
    ensures i < 0 <==> hash(e) < 0 && hash(e) % t.capacity != 0
    ensures i >= 0 ==> i == hash(e) % t.capacity
    ensures i < 0 ==> i == hash(e) % t.capacity - t.capacity
  {
    RemOfNegated(hash(e), t.capacity);
    Rem(hash(e), t.capacity)
  }

  /** Dafny's `%` of `-a` against that of `a`. */
  lemma RemOfNegated(a: int, m: int)
    requires m > 0
    ensures (-a) % m == 0 <==> a % m == 0
    ensures a % m != 0 ==> (-a) % m == m - a % m
  {
    var q, r := a / m, a % m;
    assert a == q * m + r;
    if r == 0 {
      assert -a == (-q) * m;
      ModUnique(-a, m, -q, 0);
    } else {
      assert -a == (-q - 1) * m + (m - r);
      ModUnique(-a, m, -q - 1, m - r);
    }
  }

  /** The remainder is the only value in `[0, m)` that differs from `x` by
      a multiple of `m`. */
  lemma ModUnique(x: int, m: int, q: int, r: int)
    requires m > 0 && 0 <= r < m && x == q * m + r
    ensures x % m == r
  {
    var d := q - x / m;
    assert d * m == x % m - r;
  }

  /** The slot reached after `d` forward steps from `start`, wrapping around. */
  function ProbeIndex(start: int, d: int, n: int): (i: int)
    requires 0 <= start < n && 0 <= d <= n
    ensures 0 <= i < n
    ensures i == (start + d) % n
  {
    if start + d < n then
      ModBelow(start + d, n);
      start + d
    else
      ModWrap(start + d, n);
      start + d - n
  }

  lemma ModBelow(x: int, n: int)
    requires 0 <= x < n
    ensures x % n == x
  {
  }

  lemma ModWrap(x: int, n: int)
    requires 0 < n <= x < 2 * n
    ensures x % n == x - n
  {
    assert x == 1 * n + (x - n);
  }

  /** The number of forward steps from `start` that reach slot `i`. */
  function OffsetOf(start: int, i: int, n: int): (d: nat)
    requires 0 <= start < n && 0 <= i < n
    ensures d < n && ProbeIndex(start, d, n) == i
  {
    if i >= start then i - start else i + n - start
  }

  /** One step of the Kotlin probe, `(index + 1) % capacity`. */
  lemma ProbeStep(start: int, d: int, n: int)
    requires 0 <= start < n && 0 <= d < n
    ensures (ProbeIndex(start, d, n) + 1) % n == ProbeIndex(start, d + 1, n)
  {
  }

  /** Slot `i` is the first empty slot met probing forward from `start`,
      reached after `d` steps. */
  predicate FirstFreeAt<T>(s: seq<Option<T>>, start: int, d: int)
    requires 0 <= start < |s|
  {
    && 0 <= d < |s|
    && s[ProbeIndex(start, d, |s|)].None?
    && forall d' :: 0 <= d' < d ==> s[ProbeIndex(start, d', |s|)].Some?
  }

  /** The step count of the first empty slot probing forward from `start`,
      trying the step counts `d`, `d + 1`, ... in turn; `|s|` when none of
      them reaches an empty slot. */
  function ProbeEmpty<T>(s: seq<Option<T>>, start: int, d: nat): (k: nat)
    requires 0 <= start < |s| && d <= |s|
    ensures d <= k <= |s|
    ensures k < |s| ==> s[ProbeIndex(start, k, |s|)].None?
    ensures forall d' :: d <= d' < k ==> s[ProbeIndex(start, d', |s|)].Some?
    decreases |s| - d
  {
    if d == |s| then d
    else if s[ProbeIndex(start, d, |s|)].None? then d
    else ProbeEmpty(s, start, d + 1)
  }

  // ---------------------------------------------------------------------
  // Facts about slot contents

  /** A table that is not full has an empty slot. */
  lemma {:induction false} NotFullHasEmpty<T>(s: seq<Option<T>>)
    requires |Contents(s)| < |s|
    ensures exists i :: 0 <= i < |s| && s[i].None?
  {
    if s[0].Some? {
      NotFullHasEmpty(s[1..]);
      var i :| 0 <= i < |s[1..]| && s[1..][i].None?;
      assert s[i + 1].None?;
    }
  }

  /** In a table with an empty slot the probe from any start reaches one. */
  lemma ProbeFindsEmpty<T>(s: seq<Option<T>>, start: int)
    requires 0 <= start < |s|
    requires exists i :: 0 <= i < |s| && s[i].None?
    ensures FirstFreeAt(s, start, ProbeEmpty(s, start, 0))
  {
    var i :| 0 <= i < |s| && s[i].None?;
    var d := OffsetOf(start, i, |s|);
    assert s[ProbeIndex(start, d, |s|)].None?;
  }

  /** A full table has no empty slot. */
  lemma {:induction false} FullHasNoEmpty<T>(s: seq<Option<T>>)
    requires |Contents(s)| == |s|
    ensures forall i :: 0 <= i < |s| ==> s[i].Some?
  {
    if |s| > 0 {
      assert |Contents(s[1..])| <= |s| - 1;
      FullHasNoEmpty(s[1..]);
      forall i | 0 < i < |s| ensures s[i].Some? {
        assert s[i] == s[1..][i - 1];
      }
    }
  }

  /** A table whose slots are all empty holds nothing. */
  lemma {:induction false} AllEmptyContents<T>(s: seq<Option<T>>)
    requires forall i :: 0 <= i < |s| ==> s[i].None?
    ensures Contents(s) == []
  {
    if |s| > 0 {
      AllEmptyContents(s[1..]);
    }
  }

  /** Filling an empty slot adds exactly one element. */
  lemma {:induction false} FillSlotGrows<T>(s: seq<Option<T>>, j: int, e: T)
    requires 0 <= j < |s| && s[j].None?
    ensures |Contents(s[j := Some(e)])| == |Contents(s)| + 1
  {
    if j == 0 {
      assert s[j := Some(e)][1..] == s[1..];
    } else {
      assert s[j := Some(e)][1..] == s[1..][j - 1 := Some(e)];
      FillSlotGrows(s[1..], j - 1, e);
    }
  }

  /** `x` is among the contents exactly when some slot holds `x`. */
  lemma {:induction false} ContentsMembership<T>(s: seq<Option<T>>, x: T)
    ensures x in Contents(s) <==> Some(x) in s
  {
    if |s| > 0 {
      ContentsMembership(s[1..], x);
      assert s == [s[0]] + s[1..];
    }
  }

  // ---------------------------------------------------------------------
  // Construction and the size accessors

  /** The constructor `OpenHashSet(capacity)`: an array of `capacity`
      nulls and a zero counter; a negative capacity makes the array
      allocation throw. */
  function New<T>(capacity: int): (r: Result<OpenHashSet<T>>)
    ensures capacity < 0 <==> r.Thrown?
    ensures r.Thrown? ==> r.error == NegativeArraySize(capacity)
    ensures r.Ok? ==>
      && Valid(r.value)
      && r.value.capacity == capacity
      && r.value.size == 0
      && (forall i :: 0 <= i < capacity ==> r.value.elements[i].None?)
  {
    if capacity < 0 then Thrown(NegativeArraySize(capacity))
    else
      var slots := seq(capacity, _ => None);
      AllEmptyContents(slots);
      Ok(OpenHashSet(capacity, slots, 0))
  }

  /** `isEmpty()`: true exactly when no slot holds an element. */
  function IsEmpty<T>(t: OpenHashSet<T>): (b: bool)
    requires Valid(t)
    ensures b <==> forall i :: 0 <= i < |t.elements| ==> t.elements[i].None?
  {
    AllEmptyOrNot(t.elements);
    t.size == 0
  }

  /** Nothing stored exactly when every slot is empty. */
  lemma {:induction false} AllEmptyOrNot<T>(s: seq<Option<T>>)
    ensures |Contents(s)| == 0 <==> forall i :: 0 <= i < |s| ==> s[i].None?
  {
    if |s| > 0 {
      AllEmptyOrNot(s[1..]);
      assert forall i :: 1 <= i < |s| ==> s[i] == s[1..][i - 1];
    }
  }

  // ---------------------------------------------------------------------
  // add

  /** What `add(e)` returns and the table it leaves behind. */
  function AddResult<T(==)>(t: OpenHashSet<T>, e: T, hash: T -> int): (r: Result<(bool, OpenHashSet<T>)>)
    requires Valid(t)
    ensures r.Ok? ==> Valid(r.value.1)
    ensures r.Ok? ==> r.value.0 || r.value.1 == t
    ensures r.Thrown? <==> t.size < t.capacity && NaturalIndex(t, e, hash) < 0
    ensures r.Thrown? ==> r.error == ArrayIndexOutOfBounds(NaturalIndex(t, e, hash))
    ensures r == Ok((false, t)) <==>
      || t.size == t.capacity
      || (0 <= NaturalIndex(t, e, hash) && t.elements[NaturalIndex(t, e, hash)] == Some(e))
    ensures r.Ok? && r.value.0 ==>
      exists d :: FirstFreeAt(t.elements, NaturalIndex(t, e, hash), d)
        && r.value.1 == t.(elements := t.elements[ProbeIndex(NaturalIndex(t, e, hash), d, t.capacity) := Some(e)],
                           size := t.size + 1)
  {
    if t.size == t.capacity then Ok((false, t))
    else
      var index := NaturalIndex(t, e, hash);
      if index < 0 then Thrown(ArrayIndexOutOfBounds(index))
      else if t.elements[index] == Some(e) then Ok((false, t))
      else
        NotFullHasEmpty(t.elements);
        ProbeFindsEmpty(t.elements, index);
        var d := ProbeEmpty(t.elements, index, 0);
        var slot := ProbeIndex(index, d, t.capacity);
        FillSlotGrows(t.elements, slot, e);
        Ok((true, t.(elements := t.elements[slot := Some(e)], size := t.size + 1)))
  }

  /** `add(element)` as the class performs it: the full check, the check of
      the natural slot only, then the forward probe for an empty slot. */
  method Add<T(==)>(t: OpenHashSet<T>, e: T, hash: T -> int) returns (r: Result<(bool, OpenHashSet<T>)>)
    requires Valid(t)
    ensures r == AddResult(t, e, hash)
  {
    if t.size == t.capacity {
      return Ok((false, t));
    }
    var index := Rem(hash(e), t.capacity);
    if index < 0 {
      return Thrown(ArrayIndexOutOfBounds(index));
    }
    if t.elements[index] == Some(e) {
      return Ok((false, t));
    }
    NotFullHasEmpty(t.elements);
    ProbeFindsEmpty(t.elements, index);
    ghost var start := index;
    ghost var k := ProbeEmpty(t.elements, start, 0);
    ghost var steps := 0;
    while t.elements[index] != None
      invariant 0 <= steps <= k
      invariant index == ProbeIndex(start, steps, t.capacity)
      decreases k - steps
    {
      ProbeStep(start, steps, t.capacity);
      index := (index + 1) % t.capacity;
      steps := steps + 1;
    }
    FillSlotGrows(t.elements, index, e);
    r := Ok((true, t.(elements := t.elements[index := Some(e)], size := t.size + 1)));
  }

  /** No table `add` builds holds an element whose natural index is
      negative: `add` throws before it would store one, and the capacity
      never changes. */
  lemma AddKeepsIndexOk<T>(t: OpenHashSet<T>, e: T, hash: T -> int)
    requires Valid(t) && AllIndexOk(t, t.elements, hash)
    ensures AddResult(t, e, hash).Ok? ==>
      AllIndexOk(AddResult(t, e, hash).value.1, AddResult(t, e, hash).value.1.elements, hash)
  {
    if AddResult(t, e, hash).Ok? && AddResult(t, e, hash).value.0 {
      var t' := AddResult(t, e, hash).value.1;
      var start := NaturalIndex(t, e, hash);
      var d :| FirstFreeAt(t.elements, start, d)
        && t' == t.(elements := t.elements[ProbeIndex(start, d, t.capacity) := Some(e)], size := t.size + 1);
      forall j | 0 <= j < |t'.elements| && t'.elements[j].Some? ensures IndexOk(t', t'.elements[j].value, hash) {
        if j != ProbeIndex(start, d, t.capacity) {
          assert IndexOk(t, t.elements[j].value, hash);
        }
      }
    }
  }

  // ---------------------------------------------------------------------
  // contains

  /** What `contains(e)` returns: whether some slot holds `e`; it throws
      when the capacity is zero (`% 0`) or the natural index is negative. */
  function ContainsResult<T(==)>(t: OpenHashSet<T>, e: T, hash: T -> int): (r: Result<bool>)
    requires Valid(t)
    ensures r.Thrown? <==> t.capacity == 0 || NaturalIndex(t, e, hash) < 0
    ensures r.Thrown? && t.capacity == 0 ==> r.error.Arithmetic?
    ensures r.Thrown? && t.capacity > 0 ==> r.error == ArrayIndexOutOfBounds(NaturalIndex(t, e, hash))
    ensures r.Ok? ==> (r.value <==> e in Contents(t.elements))
  {
    if t.capacity == 0 then Thrown(Arithmetic("/ by zero"))
    else
      var index := NaturalIndex(t, e, hash);
      if index < 0 then Thrown(ArrayIndexOutOfBounds(index))
      else
        ContentsMembership(t.elements, e);
        Ok(Some(e) in t.elements)
  }

  /** `contains(element)` through `containsObject` as the class performs it:
      the natural slot, then the forward probe that stops on a match or
      when it is back at the natural slot, never at an empty slot. */
  method Contains<T(==)>(t: OpenHashSet<T>, e: T, hash: T -> int) returns (r: Result<bool>)
    requires Valid(t)
    ensures r == ContainsResult(t, e, hash)
  {
    if t.capacity == 0 {
      return Thrown(Arithmetic("/ by zero"));
    }
    var startIndex := Rem(hash(e), t.capacity);
    if startIndex < 0 {
      return Thrown(ArrayIndexOutOfBounds(startIndex));
    }
    if t.elements[startIndex] == Some(e) {
      return Ok(true);
    }
    ProbeStep(startIndex, 0, t.capacity);
    var index := (startIndex + 1) % t.capacity;
    ghost var steps := 1;
    while Some(e) != t.elements[index] && index != startIndex
      invariant 1 <= steps <= t.capacity
      invariant index == ProbeIndex(startIndex, steps, t.capacity)
      invariant forall d :: 0 <= d < steps ==> t.elements[ProbeIndex(startIndex, d, t.capacity)] != Some(e)
      decreases t.capacity - steps
    {
      ProbeStep(startIndex, steps, t.capacity);
      index := (index + 1) % t.capacity;
      steps := steps + 1;
    }
    if index == startIndex {
      forall i | 0 <= i < t.capacity ensures t.elements[i] != Some(e) {
        var d := OffsetOf(startIndex, i, t.capacity);
        assert t.elements[ProbeIndex(startIndex, d, t.capacity)] != Some(e);
      }
    }
    r := Ok(index != startIndex);
  }

  // ---------------------------------------------------------------------
  // equals and hashCode

  /** `contains` does not throw for `x` in table `t`. */
  predicate IndexOk<T>(t: OpenHashSet<T>, x: T, hash: T -> int)
  {
    t.capacity > 0 && NaturalIndex(t, x, hash) >= 0
  }

  /** Every element held by the slots `xs` is also held by some slot of `t`. */
  predicate Includes<T(==)>(t: OpenHashSet<T>, xs: seq<Option<T>>)
  {
    forall j :: 0 <= j < |xs| && xs[j].Some? ==> xs[j] in t.elements
  }

  /** `contains` does not throw for any element held by the slots `xs`. */
  predicate AllIndexOk<T>(t: OpenHashSet<T>, xs: seq<Option<T>>, hash: T -> int)
  {
    forall j :: 0 <= j < |xs| && xs[j].Some? ==> IndexOk(t, xs[j].value, hash)
  }

  /** The loop of `equals` over the other table's slots `xs`, in order: it
      asks `contains` of `t` for every element and stops at the first
      exception or the first element `t` lacks. */
  function ScanOther<T(==)>(t: OpenHashSet<T>, xs: seq<Option<T>>, hash: T -> int): (r: Result<bool>)
    requires Valid(t)
    ensures r == Ok(true) ==> Includes(t, xs)
    ensures AllIndexOk(t, xs, hash) ==> r == Ok(Includes(t, xs))
    ensures r.Thrown? ==> exists j :: 0 <= j < |xs| && xs[j].Some? && !IndexOk(t, xs[j].value, hash)
    decreases |xs|
  {
    if |xs| == 0 then Ok(true)
    else
      var rest := ScanOther(t, xs[1..], hash);
      assert forall j :: 1 <= j < |xs| ==> xs[j] == xs[1..][j - 1];
      match xs[0]
      case None => rest
      case Some(x) =>
        match ContainsResult(t, x, hash)
        case Thrown(err) => Thrown(err)
        case Ok(found) => if found then rest else Ok(false)
  }

  /** What `equals(other)` returns for two tables; `identical` stands for
      `this === other`, which implies the two are the same value. */
  function EqualsResult<T(==)>(t: OpenHashSet<T>, o: OpenHashSet<T>, identical: bool, hash: T -> int): (r: Result<bool>)
    requires Valid(t) && Valid(o)
    requires identical ==> t == o
    ensures identical ==> r == Ok(true)
    ensures r == Ok(true) ==> t.size == o.size && Includes(t, o.elements)
    ensures AllIndexOk(t, o.elements, hash) ==> r == Ok(t.size == o.size && Includes(t, o.elements))
    ensures r.Thrown? ==> exists j :: 0 <= j < |o.elements| && o.elements[j].Some? && !IndexOk(t, o.elements[j].value, hash)
  {
    if identical then Ok(true)
    else if t.size != o.size then Ok(false)
    else ScanOther(t, o.elements, hash)
  }

  /** `equals(other)` as the class performs it: identity, size, then a
      `containsObject` call for every non-null slot of `other`. */
  method Equals<T(==)>(t: OpenHashSet<T>, o: OpenHashSet<T>, identical: bool, hash: T -> int) returns (r: Result<bool>)
    requires Valid(t) && Valid(o)
    requires identical ==> t == o
    ensures r == EqualsResult(t, o, identical, hash)
  {
    if identical {
      return Ok(true);
    }
    if t.size != o.size {
      return Ok(false);
    }
    var j := 0;
    while j < |o.elements|
      invariant 0 <= j <= |o.elements|
      invariant ScanOther(t, o.elements, hash) == ScanOther(t, o.elements[j..], hash)
    {
      assert o.elements[j..][1..] == o.elements[j + 1..];
      if o.elements[j].Some? {
        var found := Contains(t, o.elements[j].value, hash);
        if found.Thrown? {
          return Thrown(found.error);
        }
        if !found.value {
          return Ok(false);
        }
      }
      j := j + 1;
    }
    r := Ok(true);
  }

  /** The sum of the hashes of the elements held by the slots `s`; an
      empty slot adds 0. */
  function SlotHashSum<T>(s: seq<Option<T>>, hash: T -> int): int
  {
    if |s| == 0 then 0
    else (if s[0].Some? then hash(s[0].value) else 0) + SlotHashSum(s[1..], hash)
  }

  /** The sum of the hashes of the elements of `c`. */
  function SumHashes<T>(c: seq<T>, hash: T -> int): int
  {
    if |c| == 0 then 0 else hash(c[0]) + SumHashes(c[1..], hash)
  }

  lemma {:induction false} SumHashesConcat<T>(a: seq<T>, b: seq<T>, hash: T -> int)
    ensures SumHashes(a + b, hash) == SumHashes(a, hash) + SumHashes(b, hash)
  {
    if |a| > 0 {
      assert (a + b)[1..] == a[1..] + b;
      SumHashesConcat(a[1..], b, hash);
    } else {
      assert a + b == b;
    }
  }

  lemma {:induction false} SlotHashSumContents<T>(s: seq<Option<T>>, hash: T -> int)
    ensures SlotHashSum(s, hash) == SumHashes(Contents(s), hash)
  {
    if |s| > 0 {
      SlotHashSumContents(s[1..], hash);
      var head := if s[0].Some? then [s[0].value] else [];
      SumHashesConcat(head, Contents(s[1..]), hash);
    }
  }

  /** `hashCode()`: the sum over the backing array, which is the sum of the
      hashes of the stored elements, each counted once per slot it holds. */
  function HashCode<T>(t: OpenHashSet<T>, hash: T -> int): (h: int)
    ensures h == SumHashes(Contents(t.elements), hash)
  {
    SlotHashSumContents(t.elements, hash);
    SlotHashSum(t.elements, hash)
  }

  // ---------------------------------------------------------------------
  // The duplicate-free insertion the class comment calls for

  /** `add` with the membership test the class comment implies: the whole
      table, not just the natural slot, is searched for `e` first. */
  function AddDistinct<T(==)>(t: OpenHashSet<T>, e: T, hash: T -> int): (r: Result<(bool, OpenHashSet<T>)>)
    requires Valid(t)
    ensures r.Ok? ==> Valid(r.value.1)
    ensures r.Ok? ==> r.value.0 || r.value.1 == t
    ensures r.Ok? && r.value.0 <==>
      t.size < t.capacity && 0 <= NaturalIndex(t, e, hash) && Some(e) !in t.elements
    ensures r.Ok? && r.value.0 ==> Some(e) in r.value.1.elements && r.value.1.size == t.size + 1
    ensures SlotsDistinct(t.elements) && r.Ok? ==> SlotsDistinct(r.value.1.elements)
  {
    if t.size == t.capacity then Ok((false, t))
    else
      match ContainsResult(t, e, hash)
      case Thrown(err) => Thrown(err)
      case Ok(found) =>
        if found then Ok((false, t))
        else
          AddOfAbsentKeepsDistinct(t, e, hash);
          AddResult(t, e, hash)
  }

  /** A successful `add` of an element no slot holds stores it and keeps the
      table free of duplicates. */
  lemma AddOfAbsentKeepsDistinct<T>(t: OpenHashSet<T>, e: T, hash: T -> int)
    requires Valid(t) && Some(e) !in t.elements
    requires AddResult(t, e, hash).Ok? && AddResult(t, e, hash).value.0
    ensures Some(e) in AddResult(t, e, hash).value.1.elements
    ensures SlotsDistinct(t.elements) ==> SlotsDistinct(AddResult(t, e, hash).value.1.elements)
  {
    var t' := AddResult(t, e, hash).value.1;
    var start := NaturalIndex(t, e, hash);
    var d :| FirstFreeAt(t.elements, start, d)
      && t' == t.(elements := t.elements[ProbeIndex(start, d, t.capacity) := Some(e)], size := t.size + 1);
    assert t'.elements[ProbeIndex(start, d, t.capacity)] == Some(e);
  }
}
