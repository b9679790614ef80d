/** Properties of `OpenHashSet` that relate several calls: what a sequence
    of `add` calls leaves behind, `contains` after `add`, the symmetry of
    `equals` and its agreement with `hashCode`, the tables built from the same
    elements in different orders, and the table the natural-
    slot-only duplicate check lets through. */
module OpenHashSetProperties {
  import opened Outcomes
  import opened OpenHashSets

  // ---------------------------------------------------------------------
  // Sequences of elements

  /** No element occurs twice in `c`. */
  predicate Distinct<T(==)>(c: seq<T>)
  {
    forall i, j :: 0 <= i < j < |c| ==> c[i] != c[j]
  }

  /** The elements of `c` as a set. */
  function Elements<T>(c: seq<T>): set<T>
  {
    set x | x in c
  }

  lemma {:induction false} ContentsDistinct<T>(s: seq<Option<T>>)
    requires SlotsDistinct(s)
    ensures Distinct(Contents(s))
  {
    if |s| > 0 {
      assert SlotsDistinct(s[1..]) by {
        forall i, j | 0 <= i < j < |s[1..]| && s[1..][i].Some? ensures s[1..][i] != s[1..][j] {
          assert s[1..][i] == s[i + 1] && s[1..][j] == s[j + 1];
        }
      }
      ContentsDistinct(s[1..]);
      if s[0].Some? {
        ContentsMembership(s[1..], s[0].value);
        assert Some(s[0].value) !in s[1..] by {
          forall j | 0 <= j < |s[1..]| ensures s[1..][j] != s[0] {
            assert s[1..][j] == s[j + 1];
          }
        }
      }
    }
  }

  lemma {:induction false} DistinctCard<T>(c: seq<T>)
    requires Distinct(c)
    ensures |Elements(c)| == |c|
  {
    if |c| > 0 {
      assert Distinct(c[1..]) by {
        forall i, j | 0 <= i < j < |c[1..]| ensures c[1..][i] != c[1..][j] {
          assert c[1..][i] == c[i + 1] && c[1..][j] == c[j + 1];
        }
      }
      DistinctCard(c[1..]);
      assert Elements(c) == {c[0]} + Elements(c[1..]);
      assert c[0] !in Elements(c[1..]) by {
        forall j | 0 <= j < |c[1..]| ensures c[1..][j] != c[0] {
          assert c[1..][j] == c[j + 1];
        }
      }
    }
  }

  lemma {:induction false} DistinctMultiset<T>(c: seq<T>)
    requires Distinct(c)
    ensures forall x :: multiset(c)[x] == if x in c then 1 else 0
  {
    if |c| > 0 {
      assert Distinct(c[1..]) by {
        forall i, j | 0 <= i < j < |c[1..]| ensures c[1..][i] != c[1..][j] {
          assert c[1..][i] == c[i + 1] && c[1..][j] == c[j + 1];
        }
      }
      DistinctMultiset(c[1..]);
      assert c == [c[0]] + c[1..];
      assert c[0] !in c[1..] by {
        forall j | 0 <= j < |c[1..]| ensures c[1..][j] != c[0] {
          assert c[1..][j] == c[j + 1];
        }
      }
    }
  }

  /** The hash sum does not depend on the order of the elements. */
  lemma {:induction false} SumHashesPermutation<T>(a: seq<T>, b: seq<T>, hash: T -> int)
    requires multiset(a) == multiset(b)
    ensures SumHashes(a, hash) == SumHashes(b, hash)
    decreases |a|
  {
    if |a| == 0 {
      assert |b| == |multiset(b)| == 0;
    } else {
      var x := a[0];
      assert x in multiset(b);
      var i :| 0 <= i < |b| && b[i] == x;
      var rest := b[..i] + b[i + 1..];
      assert b == b[..i] + [x] + b[i + 1..];
      SumHashesConcat(b[..i] + [x], b[i + 1..], hash);
      SumHashesConcat(b[..i], [x], hash);
      SumHashesConcat(b[..i], b[i + 1..], hash);
      assert a == [x] + a[1..];
      assert multiset(b) == multiset(b[..i]) + multiset{x} + multiset(b[i + 1..]);
      assert multiset(rest) == multiset(b[..i]) + multiset(b[i + 1..]);
      assert multiset(a) == multiset{x} + multiset(a[1..]);
      assert multiset(a[1..]) == multiset(a) - multiset{x};
      assert multiset(rest) == multiset(b) - multiset{x};
      SumHashesPermutation(a[1..], rest, hash);
    }
  }

  // ---------------------------------------------------------------------
  // add and contains

  /** On a full table `add` returns false and changes nothing: every slot
      is occupied, so there is nowhere to probe to. */
  lemma FullTableRejects<T>(t: OpenHashSet<T>, e: T, hash: T -> int)
    requires Valid(t) && t.size == t.capacity
    ensures forall i :: 0 <= i < |t.elements| ==> t.elements[i].Some?
    ensures AddResult(t, e, hash) == Ok((false, t))
  {
    FullHasNoEmpty(t.elements);
  }

  /** `add` stores `e` when it returns true and keeps every element it
      found; nothing else enters the table. */
  lemma AddMembership<T>(t: OpenHashSet<T>, e: T, hash: T -> int)
    requires Valid(t) && AddResult(t, e, hash).Ok?
    ensures var (added, t') := AddResult(t, e, hash).value;
      forall x :: Some(x) in t'.elements <==> Some(x) in t.elements || (added && x == e)
  {
    var (added, t') := AddResult(t, e, hash).value;
    if added {
      var start := NaturalIndex(t, e, hash);
      var d :| FirstFreeAt(t.elements, start, d)
        && t' == t.(elements := t.elements[ProbeIndex(start, d, t.capacity) := Some(e)], size := t.size + 1);
      var j := ProbeIndex(start, d, t.capacity);
      assert t'.elements[j] == Some(e);
      forall x ensures Some(x) in t'.elements <==> Some(x) in t.elements || x == e {
        if Some(x) in t.elements {
          var i :| 0 <= i < |t.elements| && t.elements[i] == Some(x);
          assert t'.elements[i] == Some(x);
        }
        if Some(x) in t'.elements {
          var i :| 0 <= i < |t'.elements| && t'.elements[i] == Some(x);
          assert i == j || t.elements[i] == Some(x);
        }
      }
    }
  }

  /** After `add(e)` returns true, `contains(e)` returns true. */
  lemma AddThenContains<T>(t: OpenHashSet<T>, e: T, hash: T -> int)
    requires Valid(t) && AddResult(t, e, hash).Ok? && AddResult(t, e, hash).value.0
    ensures ContainsResult(AddResult(t, e, hash).value.1, e, hash) == Ok(true)
  {
    AddMembership(t, e, hash);
  }

  /** A sequence of `add` calls, the booleans they return dropped; the
      first exception ends it. */
  function AddEach<T(==)>(t: OpenHashSet<T>, xs: seq<T>, hash: T -> int): (r: Result<OpenHashSet<T>>)
    requires Valid(t)
    ensures r.Ok? ==> Valid(r.value) && r.value.capacity == t.capacity
    ensures r.Ok? ==> t.size <= r.value.size <= t.capacity
    ensures r.Ok? ==> forall i :: 0 <= i < |r.value.elements| && r.value.elements[i].Some? ==>
      r.value.elements[i] in t.elements || r.value.elements[i].value in xs
    ensures r.Ok? ==> forall i :: 0 <= i < |t.elements| && t.elements[i].Some? ==> t.elements[i] in r.value.elements
    ensures r.Ok? && AllIndexOk(t, t.elements, hash) ==> AllIndexOk(r.value, r.value.elements, hash)
    decreases |xs|
  {
    if |xs| == 0 then Ok(t)
    else
      match AddResult(t, xs[0], hash)
      case Thrown(err) => Thrown(err)
      case Ok(res) =>
        AddMembership(t, xs[0], hash);
        assert AllIndexOk(t, t.elements, hash) ==> AllIndexOk(res.1, res.1.elements, hash) by {
          if AllIndexOk(t, t.elements, hash) { AddKeepsIndexOk(t, xs[0], hash); }
        }
        assert forall x :: x in xs[1..] ==> x in xs;
        AddEach(res.1, xs[1..], hash)
  }

  /** An element no `add` call was given is not found in a table built
      from an empty one. */
  lemma NeverAddedNotContained<T>(capacity: int, xs: seq<T>, y: T, hash: T -> int)
    requires capacity > 0 && y !in xs
    requires AddEach(New<T>(capacity).value, xs, hash).Ok?
    requires Rem(hash(y), capacity) >= 0
    ensures ContainsResult(AddEach(New<T>(capacity).value, xs, hash).value, y, hash) == Ok(false)
  {
  }

  // ---------------------------------------------------------------------
  // equals and hashCode on duplicate-free tables

  /** `equals` is reflexive even without the identity shortcut: a table
      compared with a structurally equal table (a separate object holding
      the same slots) is equal to it. The hypothesis that every stored
      element has a non-negative natural index holds for every table `add`
      builds (`AddKeepsIndexOk`, `BuiltTableEqualsItself`). */
  lemma EqualsReflexive<T>(t: OpenHashSet<T>, hash: T -> int)
    requires Valid(t) && AllIndexOk(t, t.elements, hash)
    ensures EqualsResult(t, t, false, hash) == Ok(true)
  {
    assert Includes(t, t.elements);
  }

  /** Every table built by `add` calls from a new one equals a structurally
      equal table. */
  lemma BuiltTableEqualsItself<T>(capacity: int, xs: seq<T>, hash: T -> int)
    requires capacity >= 0 && AddEach(New<T>(capacity).value, xs, hash).Ok?
    ensures var t := AddEach(New<T>(capacity).value, xs, hash).value;
      EqualsResult(t, t, false, hash) == Ok(true)
  {
    var t := AddEach(New<T>(capacity).value, xs, hash).value;
    EqualsReflexive(t, hash);
  }

  /** Two duplicate-free tables that `equals` relates hold the same elements. */
  lemma SameElements<T>(a: OpenHashSet<T>, b: OpenHashSet<T>, hash: T -> int)
    requires Valid(a) && Valid(b) && SlotsDistinct(a.elements) && SlotsDistinct(b.elements)
    requires EqualsResult(a, b, false, hash) == Ok(true)
    ensures Elements(Contents(a.elements)) == Elements(Contents(b.elements))
  {
    var A := Elements(Contents(a.elements));
    var B := Elements(Contents(b.elements));
    ContentsDistinct(a.elements);
    ContentsDistinct(b.elements);
    DistinctCard(Contents(a.elements));
    DistinctCard(Contents(b.elements));
    forall x | x in B ensures x in A {
      ContentsMembership(b.elements, x);
      ContentsMembership(a.elements, x);
      var j :| 0 <= j < |b.elements| && b.elements[j] == Some(x);
    }
    assert A == B + (A - B);
    assert B * (A - B) == {};
    assert |A - B| == 0;
  }

  /** On duplicate-free tables `equals` is symmetric. The hypothesis on
      `b`'s own elements holds for every table `add` builds
      (`AddKeepsIndexOk`). */
  lemma EqualsSymmetric<T>(a: OpenHashSet<T>, b: OpenHashSet<T>, hash: T -> int)
    requires Valid(a) && Valid(b) && SlotsDistinct(a.elements) && SlotsDistinct(b.elements)
    requires EqualsResult(a, b, false, hash) == Ok(true)
    requires AllIndexOk(b, b.elements, hash)
    ensures EqualsResult(b, a, false, hash) == Ok(true)
  {
    SameElements(a, b, hash);
    forall j | 0 <= j < |a.elements| && a.elements[j].Some?
      ensures a.elements[j] in b.elements && IndexOk(b, a.elements[j].value, hash)
    {
      var x := a.elements[j].value;
      assert a.elements[j] == Some(x);
      ContentsMembership(a.elements, x);
      assert x in Elements(Contents(a.elements));
      ContentsMembership(b.elements, x);
      assert x in Contents(b.elements);
      var i :| 0 <= i < |b.elements| && b.elements[i] == Some(x);
      assert IndexOk(b, b.elements[i].value, hash);
    }
  }

  /** Two sequences without repetitions that hold the same elements are
      permutations of each other. */
  lemma DistinctSameMultiset<T>(ca: seq<T>, cb: seq<T>)
    requires Distinct(ca) && Distinct(cb) && Elements(ca) == Elements(cb)
    ensures multiset(ca) == multiset(cb)
  {
    DistinctMultiset(ca);
    DistinctMultiset(cb);
    forall x ensures multiset(ca)[x] == multiset(cb)[x] {
      assert x in ca <==> x in Elements(ca);
      assert x in cb <==> x in Elements(cb);
    }
  }

  /** Duplicate-free tables that `equals` relates have equal `hashCode`,
      whatever slots their elements occupy. */
  lemma EqualTablesHashAlike<T>(a: OpenHashSet<T>, b: OpenHashSet<T>, hash: T -> int)
    requires Valid(a) && Valid(b) && SlotsDistinct(a.elements) && SlotsDistinct(b.elements)
    requires EqualsResult(a, b, false, hash) == Ok(true)
    ensures HashCode(a, hash) == HashCode(b, hash)
  {
    SameElements(a, b, hash);
    ContentsDistinct(a.elements);
    ContentsDistinct(b.elements);
    DistinctSameMultiset(Contents(a.elements), Contents(b.elements));
    SumHashesPermutation(Contents(a.elements), Contents(b.elements), hash);
  }

  // ---------------------------------------------------------------------
  // Tables built from the same distinct elements

  /** Adding distinct elements that are absent from a duplicate-free table,
      with room for all of them and no negative natural index, never throws
      and stores each of them once. */
  lemma {:induction false} AddEachDistinct<T>(t: OpenHashSet<T>, xs: seq<T>, hash: T -> int)
    requires Valid(t) && SlotsDistinct(t.elements) && Distinct(xs)
    requires t.size + |xs| <= t.capacity
    requires forall x :: x in xs ==> Some(x) !in t.elements && Rem(hash(x), t.capacity) >= 0
    ensures AddEach(t, xs, hash).Ok?
    ensures SlotsDistinct(AddEach(t, xs, hash).value.elements)
    ensures AddEach(t, xs, hash).value.size == t.size + |xs|
    ensures forall x :: Some(x) in AddEach(t, xs, hash).value.elements <==> Some(x) in t.elements || x in xs
    decreases |xs|
  {
    if |xs| > 0 {
      var x := xs[0];
      assert Some(x) !in t.elements;
      var t' := AddResult(t, x, hash).value.1;
      AddOfAbsentKeepsDistinct(t, x, hash);
      AddMembership(t, x, hash);
      assert Distinct(xs[1..]) by {
        forall i, j | 0 <= i < j < |xs[1..]| ensures xs[1..][i] != xs[1..][j] {
          assert xs[1..][i] == xs[i + 1] && xs[1..][j] == xs[j + 1];
        }
      }
      forall y | y in xs[1..] ensures Some(y) !in t'.elements && Rem(hash(y), t'.capacity) >= 0 {
        var j :| 0 <= j < |xs[1..]| && xs[1..][j] == y;
        assert xs[j + 1] == y;
      }
      AddEachDistinct(t', xs[1..], hash);
      assert forall y :: y in xs <==> y == x || y in xs[1..] by {
        assert xs == [x] + xs[1..];
      }
    }
  }

  /** A sequence that holds the same elements as a repetition-free one,
      each as often, has no repetition either. */
  lemma SameMultisetDistinct<T>(xs: seq<T>, ys: seq<T>)
    requires Distinct(xs) && multiset(xs) == multiset(ys)
    ensures Distinct(ys)
  {
    DistinctMultiset(xs);
    forall i, j | 0 <= i < j < |ys| ensures ys[i] != ys[j] {
      assert ys == ys[..i] + [ys[i]] + ys[i + 1..j] + [ys[j]] + ys[j + 1..];
      assert multiset([ys[i], ys[j]]) <= multiset(ys);
    }
  }

  /** Two tables built from a new one by adding the same distinct elements,
      in any order, are `equals` and have the same `hashCode`. */
  lemma SameInputsEqual<T>(capacity: int, xs: seq<T>, ys: seq<T>, hash: T -> int)
    requires capacity > 0 && Distinct(xs) && multiset(xs) == multiset(ys)
    requires |xs| <= capacity
    requires forall x :: x in xs ==> Rem(hash(x), capacity) >= 0
    ensures AddEach(New<T>(capacity).value, xs, hash).Ok?
    ensures AddEach(New<T>(capacity).value, ys, hash).Ok?
    ensures var a := AddEach(New<T>(capacity).value, xs, hash).value;
      var b := AddEach(New<T>(capacity).value, ys, hash).value;
      EqualsResult(a, b, false, hash) == Ok(true) && HashCode(a, hash) == HashCode(b, hash)
  {
    var t := New<T>(capacity).value;
    SameMultisetDistinct(xs, ys);
    assert |ys| == |multiset(ys)| == |multiset(xs)| == |xs|;
    assert forall y :: y in ys <==> y in xs by {
      forall y ensures y in ys <==> y in xs {
        assert y in ys <==> y in multiset(ys);
        assert y in xs <==> y in multiset(xs);
      }
    }
    assert forall x :: Some(x) !in t.elements;
    AddEachDistinct(t, xs, hash);
    AddEachDistinct(t, ys, hash);
    var a := AddEach(t, xs, hash).value;
    var b := AddEach(t, ys, hash).value;
    forall j | 0 <= j < |b.elements| && b.elements[j].Some?
      ensures IndexOk(a, b.elements[j].value, hash) && b.elements[j] in a.elements
    {
      assert Some(b.elements[j].value) in b.elements;
    }
    EqualTablesHashAlike(a, b, hash);
  }

  // ---------------------------------------------------------------------
  // What the natural-slot-only check lets through

  /** With capacity 3 and two different elements whose natural index is 0:
      after `add(x)` and `add(e)`, `e` sits in slot 1, and a second
      `add(e)` returns true and stores `e` again in slot 2. */
  lemma DuplicateSlipsIn<T>(x: T, e: T, hash: T -> int)
    requires x != e
    requires Rem(hash(x), 3) == 0 && Rem(hash(e), 3) == 0
    ensures var t0 := New<T>(3).value;
      && AddResult(t0, x, hash) == Ok((true, OpenHashSet(3, [Some(x), None, None], 1)))
      && AddResult(OpenHashSet(3, [Some(x), None, None], 1), e, hash)
         == Ok((true, OpenHashSet(3, [Some(x), Some(e), None], 2)))
      && AddResult(OpenHashSet(3, [Some(x), Some(e), None], 2), e, hash)
         == Ok((true, OpenHashSet(3, [Some(x), Some(e), Some(e)], 3)))
      && !SlotsDistinct([Some(x), Some(e), Some(e)])
  {
    var t0 := New<T>(3).value;
    assert t0.elements == [None, None, None];
    var t1 := OpenHashSet(3, [Some(x), None, None], 1);
    var t2 := OpenHashSet(3, [Some(x), Some(e), None], 2);
    var t3 := OpenHashSet(3, [Some(x), Some(e), Some(e)], 3);
    assert ProbeEmpty(t0.elements, 0, 0) == 0;
    assert t0.elements[0 := Some(x)] == t1.elements;
    assert ProbeEmpty(t1.elements, 0, 0) == 1;
    assert t1.elements[1 := Some(e)] == t2.elements;
    assert ProbeEmpty(t2.elements, 0, 1) == 2 by {
      assert ProbeEmpty(t2.elements, 0, 2) == 2;
    }
    assert t2.elements[2 := Some(e)] == t3.elements;
    assert t3.elements[1] == t3.elements[2];
  }

  /** The duplicated table of `DuplicateSlipsIn` breaks the `equals` and
      `hashCode` contract: a table holding `x`, `e`, `y` claims equality
      with it, it does not claim equality back, and their hash codes differ. */
  lemma DuplicateBreaksEquals<T>(x: T, e: T, y: T, hash: T -> int)
    requires x != e && y != x && y != e
    requires Rem(hash(x), 3) >= 0 && Rem(hash(e), 3) >= 0 && Rem(hash(y), 3) >= 0
    requires hash(y) != hash(e)
    ensures var dup := OpenHashSet(3, [Some(x), Some(e), Some(e)], 3);
            var other := OpenHashSet(3, [Some(x), Some(e), Some(y)], 3);
      && Valid(dup) && Valid(other) && SlotsDistinct(other.elements) && !SlotsDistinct(dup.elements)
      && EqualsResult(other, dup, false, hash) == Ok(true)
      && EqualsResult(dup, other, false, hash) == Ok(false)
      && HashCode(dup, hash) != HashCode(other, hash)
  {
    var dup := OpenHashSet(3, [Some(x), Some(e), Some(e)], 3);
    var other := OpenHashSet(3, [Some(x), Some(e), Some(y)], 3);
    assert Contents(dup.elements[2..]) == [e];
    assert Contents(dup.elements[1..]) == [e, e];
    assert Contents(dup.elements) == [x, e, e];
    assert Contents(other.elements[2..]) == [y];
    assert Contents(other.elements[1..]) == [e, y];
    assert Contents(other.elements) == [x, e, y];
    assert Some(y) !in dup.elements;
    assert SlotsDistinct(other.elements);
    ThreeHashes(dup, x, e, e, hash);
    ThreeHashes(other, x, e, y, hash);
    assert EqualsResult(other, dup, false, hash) == Ok(true);
    assert EqualsResult(dup, other, false, hash) == Ok(false);
  }

  /** Four elements whose natural indices in a table of capacity 5 are 0,
      0, 3 and 3 (hash codes 10, 15, 3 and 8, say) end up in slots 0, 1, 3
      and 4; a lookup of a fifth element probes the whole cycle and fails. */
  lemma ProbingScenario<T>(a: T, b: T, c: T, d: T, z: T, hash: T -> int)
    requires a != b && c != d
    requires z != a && z != b && z != c && z != d
    requires Rem(hash(a), 5) == 0 && Rem(hash(b), 5) == 0
    requires Rem(hash(c), 5) == 3 && Rem(hash(d), 5) == 3
    requires Rem(hash(z), 5) >= 0
    ensures var s1 := [Some(a), None, None, None, None];
            var s2 := [Some(a), Some(b), None, None, None];
            var s3 := [Some(a), Some(b), None, Some(c), None];
            var s4 := [Some(a), Some(b), None, Some(c), Some(d)];
      && AddResult(New<T>(5).value, a, hash) == Ok((true, OpenHashSet(5, s1, 1)))
      && AddResult(OpenHashSet(5, s1, 1), b, hash) == Ok((true, OpenHashSet(5, s2, 2)))
      && AddResult(OpenHashSet(5, s2, 2), c, hash) == Ok((true, OpenHashSet(5, s3, 3)))
      && AddResult(OpenHashSet(5, s3, 3), d, hash) == Ok((true, OpenHashSet(5, s4, 4)))
      && ContainsResult(OpenHashSet(5, s4, 4), z, hash) == Ok(false)
  {
    ScenarioFirst(a, hash);
    ScenarioSecond(a, b, hash);
    ScenarioThird(a, b, c, hash);
    ScenarioFourth(a, b, c, d, hash);
    ScenarioLookup(a, b, c, d, z, hash);
  }

  lemma ScenarioFirst<T>(a: T, hash: T -> int)
    requires Rem(hash(a), 5) == 0
    ensures AddResult(New<T>(5).value, a, hash) == Ok((true, OpenHashSet(5, [Some(a), None, None, None, None], 1)))
  {
    var e0: seq<Option<T>> := [None, None, None, None, None];
    var t0 := New<T>(5).value;
    assert t0.elements == e0;
    assert t0 == OpenHashSet(5, e0, 0);
    assert NaturalIndex(t0, a, hash) == 0 && e0[0] != Some(a);
    assert ProbeEmpty(e0, 0, 0) == 0 && ProbeIndex(0, 0, 5) == 0;
    assert e0[0 := Some(a)] == [Some(a), None, None, None, None];
  }

  lemma ScenarioSecond<T>(a: T, b: T, hash: T -> int)
    requires a != b && Rem(hash(b), 5) == 0
    ensures Valid(OpenHashSet(5, [Some(a), None, None, None, None], 1))
    ensures AddResult(OpenHashSet(5, [Some(a), None, None, None, None], 1), b, hash)
      == Ok((true, OpenHashSet(5, [Some(a), Some(b), None, None, None], 2)))
  {
    var s1 := [Some(a), None, None, None, None];
    assert |Contents(s1)| == 1 by {
      assert Contents(s1[1..]) == [] by { AllEmptyContents(s1[1..]); }
    }
    assert ProbeEmpty(s1, 0, 0) == 1;
    assert s1[1 := Some(b)] == [Some(a), Some(b), None, None, None];
  }

  lemma ScenarioThird<T>(a: T, b: T, c: T, hash: T -> int)
    requires a != b && Rem(hash(c), 5) == 3
    ensures Valid(OpenHashSet(5, [Some(a), Some(b), None, None, None], 2))
    ensures AddResult(OpenHashSet(5, [Some(a), Some(b), None, None, None], 2), c, hash)
      == Ok((true, OpenHashSet(5, [Some(a), Some(b), None, Some(c), None], 3)))
  {
    var s2 := [Some(a), Some(b), None, None, None];
    assert Contents(s2) == [a, b] by {
      assert Contents(s2[2..]) == [] by { AllEmptyContents(s2[2..]); }
    }
    assert ProbeEmpty(s2, 3, 0) == 0;
    assert s2[3 := Some(c)] == [Some(a), Some(b), None, Some(c), None];
  }

  lemma ScenarioFourth<T>(a: T, b: T, c: T, d: T, hash: T -> int)
    requires a != b && c != d && Rem(hash(d), 5) == 3
    requires Valid(OpenHashSet(5, [Some(a), Some(b), None, Some(c), None], 3))
    ensures AddResult(OpenHashSet(5, [Some(a), Some(b), None, Some(c), None], 3), d, hash)
      == Ok((true, OpenHashSet(5, [Some(a), Some(b), None, Some(c), Some(d)], 4)))
  {
    var s3 := [Some(a), Some(b), None, Some(c), None];
    assert ProbeEmpty(s3, 3, 0) == 1;
    assert s3[4 := Some(d)] == [Some(a), Some(b), None, Some(c), Some(d)];
  }

  lemma ScenarioLookup<T>(a: T, b: T, c: T, d: T, z: T, hash: T -> int)
    requires z != a && z != b && z != c && z != d && Rem(hash(z), 5) >= 0
    requires Valid(OpenHashSet(5, [Some(a), Some(b), None, Some(c), Some(d)], 4))
    ensures ContainsResult(OpenHashSet(5, [Some(a), Some(b), None, Some(c), Some(d)], 4), z, hash) == Ok(false)
  {
    assert Some(z) !in [Some(a), Some(b), None, Some(c), Some(d)];
  }

  /** The hash code of a full table of three slots is the sum of its
      elements' hashes. */
  lemma ThreeHashes<T>(t: OpenHashSet<T>, x: T, y: T, z: T, hash: T -> int)
    requires t.elements == [Some(x), Some(y), Some(z)]
    requires Contents(t.elements) == [x, y, z]
    ensures HashCode(t, hash) == hash(x) + hash(y) + hash(z)
  {
    assert [x, y, z][1..] == [y, z] && [y, z][1..] == [z];
    assert SumHashes([z], hash) == hash(z);
    assert SumHashes([y, z], hash) == hash(y) + hash(z);
  }

  /** Once a table of capacity 2 holds two elements, a third `add` returns
      false and leaves the table as it was. */
  lemma FullScenario<T>(a: T, b: T, c: T, hash: T -> int)
    requires a != b
    requires Rem(hash(a), 2) >= 0 && Rem(hash(b), 2) >= 0
    ensures AddEach(New<T>(2).value, [a, b], hash).Ok?
    ensures var t := AddEach(New<T>(2).value, [a, b], hash).value;
      t.size == 2 && AddResult(t, c, hash) == Ok((false, t))
  {
    var t0 := New<T>(2).value;
    assert t0.elements == [None, None];
    var t1 := AddResult(t0, a, hash).value.1;
    assert t1.size == 1 && Some(a) in t1.elements by { AddMembership(t0, a, hash); }
    assert AddResult(t1, b, hash).Ok? && AddResult(t1, b, hash).value.0;
    var t2 := AddResult(t1, b, hash).value.1;
    assert AddEach(t2, [], hash) == Ok(t2);
    assert [a, b][1..] == [b] && [b][1..] == [];
    assert AddEach(t1, [b], hash) == Ok(t2);
    assert AddEach(t0, [a, b], hash) == Ok(t2);
  }
}
