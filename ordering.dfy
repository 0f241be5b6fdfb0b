/**
 * The pure half of `orderBy`/`thenBy`: the per-criterion key comparator, the
 * composite comparator that applies the criteria in registration order and breaks
 * full ties by input position, and the index-tagged sort `iterator()` performs.
 *
 * `Collections.sort` is represented by an insertion sort; `SortedUnique` shows that
 * under the index-tie-broken comparator every sorted permutation is the same
 * sequence, so the result does not depend on which sorting algorithm is used.
 */
module Ordering {
  import opened JavaLang

  /** A `java.util.Comparator`: negative, zero or positive as `a` sorts before, with or after `b`. */
  type Comparator<-T> = (T, T) -> int

  function Sign(x: int): int
  {
    if x < 0 then -1 else if x == 0 then 0 else 1
  }

  /**
   * The general contract of `Comparator.compare` that sorting relies on: swapping
   * the arguments flips the sign, and "sorts no later than" is transitive.
   */
  ghost predicate TotalPreorder<T(!new)>(c: Comparator<T>)
  {
    && (forall a, b :: Sign(c(a, b)) == -Sign(c(b, a)))
    && (forall a, b, d :: c(a, b) <= 0 && c(b, d) <= 0 ==> c(a, d) <= 0)
  }

  ghost predicate AllPreorders<T(!new)>(criteria: seq<Comparator<T>>)
  {
    forall i :: 0 <= i < |criteria| ==> TotalPreorder(criteria[i])
  }

  lemma StrictThenWeak<T(!new)>(c: Comparator<T>, a: T, b: T, d: T)
    requires TotalPreorder(c) && c(a, b) < 0 && c(b, d) <= 0
    ensures c(a, d) < 0
  {
    assert Sign(c(a, d)) == -Sign(c(d, a)) && Sign(c(a, b)) == -Sign(c(b, a));
  }

  lemma WeakThenStrict<T(!new)>(c: Comparator<T>, a: T, b: T, d: T)
    requires TotalPreorder(c) && c(a, b) <= 0 && c(b, d) < 0
    ensures c(a, d) < 0
  {
    assert Sign(c(a, d)) == -Sign(c(d, a)) && Sign(c(b, d)) == -Sign(c(d, b));
  }

  /**
   * Consulting `f` first and `g` only on a tie keeps the comparator contract; this
   * is the step both the criteria loop and the index tie-break take.
   */
  lemma ThenPreorder<T(!new)>(f: Comparator<T>, g: Comparator<T>, h: Comparator<T>)
    requires TotalPreorder(f) && TotalPreorder(g)
    requires forall a, b :: h(a, b) == if f(a, b) != 0 then f(a, b) else g(a, b)
    ensures TotalPreorder(h)
  {
    forall a, b
      ensures Sign(h(a, b)) == -Sign(h(b, a))
    {
    }
    forall a, b, d | h(a, b) <= 0 && h(b, d) <= 0
      ensures h(a, d) <= 0
    {
      if f(a, b) < 0 {
        StrictThenWeak(f, a, b, d);
      } else if f(b, d) < 0 {
        WeakThenStrict(f, a, b, d);
      } else {
        assert f(a, b) == 0 && f(b, d) == 0;
        assert f(d, a) <= 0 by {
          assert f(d, b) <= 0 && f(b, a) <= 0;
        }
        assert f(a, d) == 0;
      }
    }
  }

  // ---------------------------------------------------------------------------
  // One criterion (the comparator built in the `OrderedIterable` constructor)
  // ---------------------------------------------------------------------------

  /** The key comparator actually used: the given one, or the keys' natural order when it is null. */
  function Comparer<K>(comparator: Ref<Comparator<K>>, natural: Comparator<K>): (c: Comparator<K>)
    ensures comparator.Null? ==> c == natural
    ensures comparator.NonNull? ==> c == comparator.value
  {
    if comparator.Null? then natural else comparator.value
  }

  /** A criterion compares the selected keys, with the sign flipped for a descending criterion. */
  function Criterion<T(!new), K(!new)>(keySelector: T -> K, comparator: Ref<Comparator<K>>, natural: Comparator<K>, descending: bool)
    : (r: Comparator<T>)
    ensures !descending ==> forall a, b :: r(a, b) == Comparer(comparator, natural)(keySelector(a), keySelector(b))
    ensures descending ==> forall a, b :: r(a, b) == -Comparer(comparator, natural)(keySelector(a), keySelector(b))
  {
    var comparer := Comparer(comparator, natural);
    (a: T, b: T) => (if descending then -1 else 1) * comparer(keySelector(a), keySelector(b))
  }

  /**
   * An ascending criterion is the key comparator applied to the selected keys, a
   * descending one its negation, and a null comparator means the natural order.
   */
  lemma CriterionCompares<T(!new), K(!new)>(keySelector: T -> K, comparator: Ref<Comparator<K>>, natural: Comparator<K>, a: T, b: T)
    ensures Criterion(keySelector, comparator, natural, false)(a, b)
         == Comparer(comparator, natural)(keySelector(a), keySelector(b))
    ensures Criterion(keySelector, comparator, natural, true)(a, b)
         == -Criterion(keySelector, comparator, natural, false)(a, b)
    ensures comparator.Null? ==>
              Criterion(keySelector, comparator, natural, false)(a, b) == natural(keySelector(a), keySelector(b))
  {
  }

  /** A descending criterion puts `a` first exactly when the ascending one puts `b` first. */
  lemma DescendingReverses<T(!new), K(!new)>(keySelector: T -> K, comparator: Ref<Comparator<K>>, natural: Comparator<K>, a: T, b: T)
    requires TotalPreorder(Comparer(comparator, natural))
    ensures Criterion(keySelector, comparator, natural, true)(a, b) < 0
        <==> Criterion(keySelector, comparator, natural, false)(b, a) < 0
  {
    var c := Comparer(comparator, natural);
    assert Sign(c(keySelector(a), keySelector(b))) == -Sign(c(keySelector(b), keySelector(a)));
  }

  /** A criterion built over a consistent key comparator is itself consistent. */
  lemma CriterionPreorder<T(!new), K(!new)>(keySelector: T -> K, comparator: Ref<Comparator<K>>, natural: Comparator<K>, descending: bool)
    requires TotalPreorder(Comparer(comparator, natural))
    ensures TotalPreorder(Criterion(keySelector, comparator, natural, descending))
  {
    var c := Comparer(comparator, natural);
    var h := Criterion(keySelector, comparator, natural, descending);
    forall a, b
      ensures Sign(h(a, b)) == -Sign(h(b, a))
    {
      assert Sign(c(keySelector(a), keySelector(b))) == -Sign(c(keySelector(b), keySelector(a)));
    }
    forall a, b, d | h(a, b) <= 0 && h(b, d) <= 0
      ensures h(a, d) <= 0
    {
      var x, y, z := keySelector(a), keySelector(b), keySelector(d);
      if descending {
        assert Sign(c(x, y)) == -Sign(c(y, x)) && Sign(c(y, z)) == -Sign(c(z, y));
        assert c(z, x) <= 0 by {
          assert c(z, y) <= 0 && c(y, x) <= 0;
        }
        assert Sign(c(x, z)) == -Sign(c(z, x));
      } else {
        assert c(x, y) <= 0 && c(y, z) <= 0;
      }
    }
  }

  // ---------------------------------------------------------------------------
  // The composite comparator of `iterator()`
  // ---------------------------------------------------------------------------

  /** The criteria loop: criteria are consulted in list order and the first non-zero result decides. */
  function CompareBy<T>(criteria: seq<Comparator<T>>, a: T, b: T): (r: int)
    ensures r == 0 <==> forall i :: 0 <= i < |criteria| ==> criteria[i](a, b) == 0
  {
    if criteria == [] then 0
    else if criteria[0](a, b) != 0 then criteria[0](a, b)
    else CompareBy(criteria[1..], a, b)
  }

  /** When every earlier criterion ties, the first criterion that does not tie gives the result. */
  lemma {:induction false} FirstDifferenceDecides<T(!new)>(criteria: seq<Comparator<T>>, a: T, b: T, i: nat)
    requires i < |criteria| && criteria[i](a, b) != 0
    requires forall j :: 0 <= j < i ==> criteria[j](a, b) == 0
    ensures CompareBy(criteria, a, b) == criteria[i](a, b)
  {
    if i > 0 {
      FirstDifferenceDecides(criteria[1..], a, b, i - 1);
    }
  }

  function Lexicographic<T>(criteria: seq<Comparator<T>>): Comparator<T>
  {
    (a: T, b: T) => CompareBy(criteria, a, b)
  }

  /** Consistent criteria give a consistent lexicographic comparator. */
  lemma {:induction false} LexicographicPreorder<T(!new)>(criteria: seq<Comparator<T>>)
    requires AllPreorders(criteria)
    ensures TotalPreorder(Lexicographic(criteria))
  {
    if criteria != [] {
      assert AllPreorders(criteria[1..]) by {
        forall i | 0 <= i < |criteria| - 1 ensures TotalPreorder(criteria[1..][i]) {
          assert criteria[1..][i] == criteria[i + 1];
        }
      }
      LexicographicPreorder(criteria[1..]);
      assert TotalPreorder(criteria[0]);
      ThenPreorder(criteria[0], Lexicographic(criteria[1..]), Lexicographic(criteria));
    }
  }

  /** An element of the list being sorted: the item and its position in the input. */
  datatype Indexed<T> = Indexed(index: nat, value: T)

  /**
   * `Long.compareTo` and `Integer.compareTo`: the natural order of integers, used
   * on the input indices and on the integer keys of the examples.
   */
  function CompareNumbers(x: int, y: int): (r: int)
    ensures r < 0 <==> x < y
    ensures r == 0 <==> x == y
  {
    if x < y then -1 else if x == y then 0 else 1
  }

  /** The comparator handed to `Collections.sort`: the criteria, then the input index. */
  function Composite<T(!new)>(criteria: seq<Comparator<T>>): (r: Comparator<Indexed<T>>)
    ensures forall x, y :: r(x, y) == 0 <==> CompareBy(criteria, x.value, y.value) == 0 && x.index == y.index
    ensures forall x, y :: r(x, y) < 0 <==>
              CompareBy(criteria, x.value, y.value) < 0 || (CompareBy(criteria, x.value, y.value) == 0 && x.index < y.index)
  {
    (x: Indexed<T>, y: Indexed<T>) =>
      var r := CompareBy(criteria, x.value, y.value);
      if r != 0 then r else CompareNumbers(x.index, y.index)
  }

  /** The input index is consulted only when every criterion ties. */
  lemma CompositeByValue<T(!new)>(criteria: seq<Comparator<T>>, x: Indexed<T>, y: Indexed<T>)
    ensures CompareBy(criteria, x.value, y.value) != 0 ==>
              Composite(criteria)(x, y) == CompareBy(criteria, x.value, y.value)
    ensures CompareBy(criteria, x.value, y.value) == 0 ==>
              Composite(criteria)(x, y) == CompareNumbers(x.index, y.index)
  {
  }

  /** With consistent criteria the composite comparator is consistent. */
  lemma CompositePreorder<T(!new)>(criteria: seq<Comparator<T>>)
    requires AllPreorders(criteria)
    ensures TotalPreorder(Composite(criteria))
  {
    var lex := Lexicographic(criteria);
    LexicographicPreorder(criteria);
    var byValue := (x: Indexed<T>, y: Indexed<T>) => CompareBy(criteria, x.value, y.value);
    var byIndex := (x: Indexed<T>, y: Indexed<T>) => CompareNumbers(x.index, y.index);
    assert TotalPreorder(byValue) by {
      forall x: Indexed<T>, y: Indexed<T>
        ensures Sign(byValue(x, y)) == -Sign(byValue(y, x))
      {
        assert lex(x.value, y.value) == byValue(x, y) && lex(y.value, x.value) == byValue(y, x);
      }
      forall x: Indexed<T>, y: Indexed<T>, z: Indexed<T> | byValue(x, y) <= 0 && byValue(y, z) <= 0
        ensures byValue(x, z) <= 0
      {
        assert lex(x.value, y.value) <= 0 && lex(y.value, z.value) <= 0;
        assert lex(x.value, z.value) == byValue(x, z);
      }
    }
    ThenPreorder(byValue, byIndex, Composite(criteria));
  }

  // ---------------------------------------------------------------------------
  // Sorting
  // ---------------------------------------------------------------------------

  predicate SortedBy<T>(c: Comparator<T>, s: seq<T>)
  {
    forall i, j :: 0 <= i < j < |s| ==> c(s[i], s[j]) <= 0
  }

  ghost predicate Distinct<T>(s: seq<T>)
  {
    forall i, j :: 0 <= i < j < |s| ==> s[i] != s[j]
  }

  /** Inserts `x` before the first element it does not sort after. */
  function Insert<T>(c: Comparator<T>, x: T, s: seq<T>): (r: seq<T>)
    ensures |r| == |s| + 1
    ensures multiset(r) == multiset(s) + multiset{x}
  {
    if s == [] || c(x, s[0]) <= 0 then [x] + s
    else
      assert s == [s[0]] + s[1..];
      [s[0]] + Insert(c, x, s[1..])
  }

  /** The stand-in for `Collections.sort`: insertion sort. */
  function Sort<T>(c: Comparator<T>, s: seq<T>): (r: seq<T>)
    ensures |r| == |s|
    ensures multiset(r) == multiset(s)
  {
    if s == [] then []
    else
      assert s == [s[0]] + s[1..];
      Insert(c, s[0], Sort(c, s[1..]))
  }

  lemma SortedTail<T(!new)>(c: Comparator<T>, s: seq<T>)
    requires SortedBy(c, s) && s != []
    ensures SortedBy(c, s[1..])
  {
    forall i, j | 0 <= i < j < |s| - 1 ensures c(s[1..][i], s[1..][j]) <= 0 {
      assert s[1..][i] == s[i + 1] && s[1..][j] == s[j + 1];
    }
  }

  lemma ConsSorted<T(!new)>(c: Comparator<T>, x: T, t: seq<T>)
    requires SortedBy(c, t)
    requires forall j :: 0 <= j < |t| ==> c(x, t[j]) <= 0
    ensures SortedBy(c, [x] + t)
  {
    var r := [x] + t;
    forall i, j | 0 <= i < j < |r| ensures c(r[i], r[j]) <= 0 {
      if i > 0 {
        assert r[i] == t[i - 1] && r[j] == t[j - 1];
      } else {
        assert r[j] == t[j - 1];
      }
    }
  }

  /** The head of a sorted sequence sorts no later than any of its elements. */
  lemma HeadIsLeast<T(!new)>(c: Comparator<T>, s: seq<T>, y: T)
    requires TotalPreorder(c) && SortedBy(c, s) && y in s
    ensures c(s[0], y) <= 0
  {
    var k :| 0 <= k < |s| && s[k] == y;
    if k == 0 {
      assert Sign(c(y, y)) == -Sign(c(y, y));
    }
  }

  lemma InsertedElement<T(!new)>(c: Comparator<T>, x: T, s: seq<T>, y: T)
    requires y in Insert(c, x, s)
    ensures y == x || y in s
  {
    assert y in multiset(Insert(c, x, s));
  }

  lemma {:induction false} InsertSorted<T(!new)>(c: Comparator<T>, x: T, s: seq<T>)
    requires TotalPreorder(c) && SortedBy(c, s)
    ensures SortedBy(c, Insert(c, x, s))
  {
    if s == [] || c(x, s[0]) <= 0 {
      forall j | 0 <= j < |s| ensures c(x, s[j]) <= 0 {
        HeadIsLeast(c, s, s[j]);
      }
      ConsSorted(c, x, s);
    } else {
      var t := Insert(c, x, s[1..]);
      SortedTail(c, s);
      InsertSorted(c, x, s[1..]);
      assert c(s[0], x) < 0 by {
        assert Sign(c(x, s[0])) == -Sign(c(s[0], x));
      }
      forall j | 0 <= j < |t| ensures c(s[0], t[j]) <= 0 {
        InsertedElement(c, x, s[1..], t[j]);
        if t[j] != x {
          HeadIsLeast(c, s, t[j]);
        }
      }
      ConsSorted(c, s[0], t);
    }
  }

  /** With a consistent comparator the sort's output is sorted. */
  lemma {:induction false} SortSorted<T(!new)>(c: Comparator<T>, s: seq<T>)
    requires TotalPreorder(c)
    ensures SortedBy(c, Sort(c, s))
  {
    if s != [] {
      SortSorted(c, s[1..]);
      InsertSorted(c, s[0], Sort(c, s[1..]));
    }
  }

  lemma DistinctTail<T(!new)>(s: seq<T>)
    requires Distinct(s) && s != []
    ensures Distinct(s[1..]) && s[0] !in multiset(s[1..])
  {
    forall i, j | 0 <= i < j < |s| - 1 ensures s[1..][i] != s[1..][j] {
      assert s[1..][i] == s[i + 1] && s[1..][j] == s[j + 1];
    }
    forall k | 0 <= k < |s| - 1 ensures s[1..][k] != s[0] {
      assert s[1..][k] == s[k + 1];
    }
  }

  lemma ConsDistinct<T(!new)>(x: T, t: seq<T>)
    requires Distinct(t) && x !in t
    ensures Distinct([x] + t)
  {
    var r := [x] + t;
    forall i, j | 0 <= i < j < |r| ensures r[i] != r[j] {
      assert r[j] == t[j - 1];
      if i > 0 {
        assert r[i] == t[i - 1];
      }
    }
  }

  lemma {:induction false} InsertDistinct<T(!new)>(c: Comparator<T>, x: T, s: seq<T>)
    requires Distinct(s) && x !in s
    ensures Distinct(Insert(c, x, s))
  {
    if s == [] || c(x, s[0]) <= 0 {
      ConsDistinct(x, s);
    } else {
      var t := Insert(c, x, s[1..]);
      DistinctTail(s);
      assert x !in s[1..] by {
        assert x !in multiset(s) && s == [s[0]] + s[1..];
      }
      InsertDistinct(c, x, s[1..]);
      assert s[0] !in multiset(t);
      ConsDistinct(s[0], t);
    }
  }

  /** Sorting a sequence without repetitions gives one without repetitions. */
  lemma {:induction false} SortDistinct<T(!new)>(c: Comparator<T>, s: seq<T>)
    requires Distinct(s)
    ensures Distinct(Sort(c, s))
  {
    if s != [] {
      DistinctTail(s);
      SortDistinct(c, s[1..]);
      assert s[0] !in multiset(Sort(c, s[1..]));
      InsertDistinct(c, s[0], Sort(c, s[1..]));
    }
  }

  /**
   * When the comparator ties only equal elements, a sorted permutation is unique:
   * any two sorted orderings of the same elements are the same sequence.
   */
  lemma SortedHeadsAgree<T(!new)>(c: Comparator<T>, a: seq<T>, b: seq<T>)
    requires TotalPreorder(c) && SortedBy(c, a) && SortedBy(c, b) && multiset(a) == multiset(b)
    requires a != [] && b != []
    requires forall x, y :: x in a && y in a && c(x, y) == 0 ==> x == y
    ensures a[0] == b[0]
  {
    var x, y := a[0], b[0];
    assert x in multiset(b) && y in multiset(a);
    HeadIsLeast(c, b, x);
    HeadIsLeast(c, a, y);
    assert Sign(c(x, y)) == -Sign(c(y, x));
  }

  /**
   * When the comparator ties only equal elements, a sorted permutation is unique:
   * any two sorted orderings of the same elements are the same sequence.
   */
  lemma {:induction false} SortedUnique<T(!new)>(c: Comparator<T>, a: seq<T>, b: seq<T>)
    requires TotalPreorder(c) && SortedBy(c, a) && SortedBy(c, b) && multiset(a) == multiset(b)
    requires forall x, y :: x in a && y in a && c(x, y) == 0 ==> x == y
    ensures a == b
  {
    SamePermutationLength(a, b);
    if a != [] {
      SortedHeadsAgree(c, a, b);
      SamePermutationTails(a, b);
      SortedTail(c, a);
      SortedTail(c, b);
      TailTiesOnlyEqual(c, a);
      SortedUnique(c, a[1..], b[1..]);
      assert a == [a[0]] + a[1..] && b == [b[0]] + b[1..];
    }
  }

  lemma SamePermutationLength<T>(a: seq<T>, b: seq<T>)
    requires multiset(a) == multiset(b)
    ensures |a| == |b| && (a == [] <==> b == [])
  {
    assert |a| == |multiset(a)| == |multiset(b)| == |b|;
  }

  lemma SamePermutationTails<T>(a: seq<T>, b: seq<T>)
    requires multiset(a) == multiset(b) && a != [] && b != [] && a[0] == b[0]
    ensures multiset(a[1..]) == multiset(b[1..])
  {
    assert a == [a[0]] + a[1..] && b == [b[0]] + b[1..];
    assert multiset(a[1..]) == multiset(a) - multiset{a[0]};
    assert multiset(b[1..]) == multiset(b) - multiset{b[0]};
  }

  lemma TailTiesOnlyEqual<T(!new)>(c: Comparator<T>, a: seq<T>)
    requires a != []
    requires forall x, y :: x in a && y in a && c(x, y) == 0 ==> x == y
    ensures forall x, y :: x in a[1..] && y in a[1..] && c(x, y) == 0 ==> x == y
  {
    assert forall u :: u in a[1..] ==> u in a;
  }

  // ---------------------------------------------------------------------------
  // Tagging, stripping and the ordered view
  // ---------------------------------------------------------------------------

  /** The counting loop of `iterator()`: each item paired with its zero-based input position. */
  function Tag<T>(items: seq<T>): (r: seq<Indexed<T>>)
    ensures |r| == |items|
    ensures forall k :: 0 <= k < |r| ==> r[k] == Indexed(k, items[k])
  {
    seq(|items|, k requires 0 <= k < |items| => Indexed(k, items[k]))
  }

  /** The final `map(item -> item.getValue())`: the indices stripped again. */
  function Values<T>(s: seq<Indexed<T>>): (r: seq<T>)
    ensures |r| == |s|
    ensures forall k :: 0 <= k < |s| ==> r[k] == s[k].value
  {
    if s == [] then [] else [s[0].value] + Values(s[1..])
  }

  /** The positions, in the input, of the sorted items. */
  function Indices<T>(s: seq<Indexed<T>>): (r: seq<nat>)
    ensures |r| == |s|
    ensures forall k :: 0 <= k < |s| ==> r[k] == s[k].index
  {
    seq(|s|, k requires 0 <= k < |s| => s[k].index)
  }

  /** The sequence one call of `iterator()` yields, for the criteria in force at that call. */
  function OrderedView<T(!new)>(criteria: seq<Comparator<T>>, items: seq<T>): (r: seq<T>)
    ensures |r| == |items|
  {
    Values(Sort(Composite(criteria), Tag(items)))
  }

  /** Where each output element came from in the input. */
  function Ranking<T(!new)>(criteria: seq<Comparator<T>>, items: seq<T>): (r: seq<nat>)
    ensures |r| == |items|
  {
    Indices(Sort(Composite(criteria), Tag(items)))
  }

  lemma {:induction false} ValuesOfInsert<T(!new)>(c: Comparator<Indexed<T>>, x: Indexed<T>, s: seq<Indexed<T>>)
    ensures multiset(Values(Insert(c, x, s))) == multiset(Values(s)) + multiset{x.value}
  {
    if s == [] || c(x, s[0]) <= 0 {
      assert Values(Insert(c, x, s)) == [x.value] + Values(s);
    } else {
      ValuesOfInsert(c, x, s[1..]);
      assert Values(Insert(c, x, s)) == [s[0].value] + Values(Insert(c, x, s[1..]));
      assert Values(s) == [s[0].value] + Values(s[1..]);
    }
  }

  lemma {:induction false} ValuesOfSort<T(!new)>(c: Comparator<Indexed<T>>, s: seq<Indexed<T>>)
    ensures multiset(Values(Sort(c, s))) == multiset(Values(s))
  {
    if s != [] {
      ValuesOfSort(c, s[1..]);
      ValuesOfInsert(c, s[0], Sort(c, s[1..]));
      assert Values(s) == [s[0].value] + Values(s[1..]);
    }
  }

  lemma ValuesOfTag<T(!new)>(items: seq<T>)
    ensures Values(Tag(items)) == items
  {
  }

  lemma TagDistinct<T(!new)>(items: seq<T>)
    ensures Distinct(Tag(items))
  {
  }

  /** Every sorted element is an input item under its own input position. */
  lemma SortedFromInput<T(!new)>(criteria: seq<Comparator<T>>, items: seq<T>, y: Indexed<T>)
    requires y in Sort(Composite(criteria), Tag(items))
    ensures y.index < |items| && y == Indexed(y.index, items[y.index])
  {
    assert y in multiset(Tag(items));
  }

  /** `iterator()` yields a permutation of its input. */
  lemma OrderedViewPermutation<T(!new)>(criteria: seq<Comparator<T>>, items: seq<T>)
    ensures multiset(OrderedView(criteria, items)) == multiset(items)
  {
    ValuesOfSort(Composite(criteria), Tag(items));
    ValuesOfTag(items);
  }

  /**
   * Each output position holds the input item at a distinct input position, so
   * every input item is yielded exactly once.
   */
  lemma OrderedViewRanking<T(!new)>(criteria: seq<Comparator<T>>, items: seq<T>)
    ensures |Ranking(criteria, items)| == |OrderedView(criteria, items)| == |items|
    ensures forall k :: 0 <= k < |items| ==>
              Ranking(criteria, items)[k] < |items|
              && OrderedView(criteria, items)[k] == items[Ranking(criteria, items)[k]]
    ensures Distinct(Ranking(criteria, items))
  {
    var sorted := Sort(Composite(criteria), Tag(items));
    forall k | 0 <= k < |sorted| ensures sorted[k].index < |items| && sorted[k].value == items[sorted[k].index] {
      SortedFromInput(criteria, items, sorted[k]);
    }
    TagDistinct(items);
    SortDistinct(Composite(criteria), Tag(items));
    forall k, l | 0 <= k < l < |sorted| ensures sorted[k].index != sorted[l].index {
      SortedFromInput(criteria, items, sorted[k]);
      SortedFromInput(criteria, items, sorted[l]);
    }
  }

  lemma TaggedSorted<T(!new)>(criteria: seq<Comparator<T>>, items: seq<T>)
    requires AllPreorders(criteria)
    ensures SortedBy(Composite(criteria), Sort(Composite(criteria), Tag(items)))
  {
    CompositePreorder(criteria);
    SortSorted(Composite(criteria), Tag(items));
  }

  /** The output is sorted under the criteria, in list order with the first difference deciding. */
  lemma OrderedViewSorted<T(!new)>(criteria: seq<Comparator<T>>, items: seq<T>)
    requires AllPreorders(criteria)
    ensures SortedBy(Lexicographic(criteria), OrderedView(criteria, items))
  {
    var sorted := Sort(Composite(criteria), Tag(items));
    TaggedSorted(criteria, items);
    var out := OrderedView(criteria, items);
    forall i, j | 0 <= i < j < |out| ensures Lexicographic(criteria)(out[i], out[j]) <= 0 {
      assert Composite(criteria)(sorted[i], sorted[j]) <= 0;
    }
  }

  /** Stability: items that tie on every criterion keep their input order. */
  lemma OrderedViewStable<T(!new)>(criteria: seq<Comparator<T>>, items: seq<T>)
    requires AllPreorders(criteria)
    ensures forall k, l :: 0 <= k < l < |items| && CompareBy(criteria, OrderedView(criteria, items)[k], OrderedView(criteria, items)[l]) == 0
              ==> Ranking(criteria, items)[k] < Ranking(criteria, items)[l]
  {
    var sorted := Sort(Composite(criteria), Tag(items));
    TaggedSorted(criteria, items);
    OrderedViewRanking(criteria, items);
    forall k, l | 0 <= k < l < |items| && CompareBy(criteria, sorted[k].value, sorted[l].value) == 0
      ensures sorted[k].index < sorted[l].index
    {
      CompositeByValue(criteria, sorted[k], sorted[l]);
      assert Ranking(criteria, items)[k] != Ranking(criteria, items)[l];
    }
  }

  /**
   * Whatever algorithm sorts the tagged items, a sorted permutation of them is the
   * one `Sort` produces: the index tie-break leaves no two items tied.
   */
  lemma TaggedSortUnique<T(!new)>(criteria: seq<Comparator<T>>, items: seq<T>, other: seq<Indexed<T>>)
    requires AllPreorders(criteria)
    requires multiset(other) == multiset(Tag(items)) && SortedBy(Composite(criteria), other)
    ensures other == Sort(Composite(criteria), Tag(items))
    ensures Values(other) == OrderedView(criteria, items)
  {
    var c := Composite(criteria);
    CompositePreorder(criteria);
    SortSorted(c, Tag(items));
    forall x, y | x in other && y in other && c(x, y) == 0 ensures x == y {
      assert x in multiset(Tag(items)) && y in multiset(Tag(items));
    }
    SortedUnique(c, other, Sort(c, Tag(items)));
  }

  /** Items already in order under the criteria come out unchanged. */
  lemma OrderedViewOfSorted<T(!new)>(criteria: seq<Comparator<T>>, items: seq<T>)
    requires AllPreorders(criteria)
    requires SortedBy(Lexicographic(criteria), items)
    ensures OrderedView(criteria, items) == items
  {
    var tagged := Tag(items);
    forall i, j | 0 <= i < j < |tagged| ensures Composite(criteria)(tagged[i], tagged[j]) <= 0 {
      assert Lexicographic(criteria)(items[i], items[j]) <= 0;
    }
    TaggedSortUnique(criteria, items, tagged);
    ValuesOfTag(items);
  }

  /** Iterating the same ordered sequence again gives the same order: sorting is idempotent. */
  lemma OrderedViewIdempotent<T(!new)>(criteria: seq<Comparator<T>>, items: seq<T>)
    requires AllPreorders(criteria)
    ensures OrderedView(criteria, OrderedView(criteria, items)) == OrderedView(criteria, items)
  {
    OrderedViewSorted(criteria, items);
    OrderedViewOfSorted(criteria, OrderedView(criteria, items));
  }

  /** Items that tie on every criterion come out in exactly their input order. */
  lemma TiesKeepInputOrder<T(!new)>(criteria: seq<Comparator<T>>, items: seq<T>)
    requires AllPreorders(criteria)
    requires forall i, j :: 0 <= i < j < |items| ==> CompareBy(criteria, items[i], items[j]) == 0
    ensures OrderedView(criteria, items) == items
  {
    OrderedViewOfSorted(criteria, items);
  }

  // ---------------------------------------------------------------------------
  // Examples
  // ---------------------------------------------------------------------------

  lemma CompareNumbersPreorder()
    ensures TotalPreorder(CompareNumbers)
  {
  }

  function First(p: (int, int)): int
  {
    p.0
  }

  function Second(p: (int, int)): int
  {
    p.1
  }

  /** Ordering pairs by their first and then their second component, both ascending. */
  function ByFirstThenSecond(): seq<Comparator<(int, int)>>
  {
    [Criterion(First, Null, CompareNumbers, false), Criterion(Second, Null, CompareNumbers, false)]
  }

  lemma ByFirstThenSecondPreorders()
    ensures AllPreorders(ByFirstThenSecond())
    ensures AllPreorders(ByFirstThenSecond()[..1])
  {
    CompareNumbersPreorder();
    CriterionPreorder(First, Null, CompareNumbers, false);
    CriterionPreorder(Second, Null, CompareNumbers, false);
  }

  /** A pair sorts before another with a smaller first component, or an equal first and a smaller second. */
  lemma PairsInOrder(a: (int, int), b: (int, int))
    requires a.0 < b.0 || (a.0 == b.0 && a.1 < b.1)
    ensures CompareBy(ByFirstThenSecond(), a, b) < 0
    ensures CompareBy(ByFirstThenSecond(), b, a) > 0
  {
    var criteria := ByFirstThenSecond();
    CriterionCompares(First, Null, CompareNumbers, a, b);
    CriterionCompares(Second, Null, CompareNumbers, a, b);
    CriterionCompares(First, Null, CompareNumbers, b, a);
    CriterionCompares(Second, Null, CompareNumbers, b, a);
    if a.0 < b.0 {
      FirstDifferenceDecides(criteria, a, b, 0);
      FirstDifferenceDecides(criteria, b, a, 0);
    } else {
      FirstDifferenceDecides(criteria, a, b, 1);
      FirstDifferenceDecides(criteria, b, a, 1);
    }
  }

  /** Pairs sorted by the first component and then by the second, both ascending. */
  lemma SortByFirstThenSecondExample(items: seq<(int, int)>)
    requires items == [(1, 2), (1, 1), (2, 1)]
    ensures OrderedView(ByFirstThenSecond(), items) == [(1, 1), (1, 2), (2, 1)]
  {
    PairsInOrder((1, 1), (2, 1));
    PairsInOrder((1, 1), (1, 2));
    PairsInOrder((1, 2), (2, 1));
    OrderedViewOfThree(ByFirstThenSecond(), items);
  }

  /** Three items of which only the first two are out of order come out with those two swapped. */
  lemma OrderedViewOfThree<T(!new)>(criteria: seq<Comparator<T>>, items: seq<T>)
    requires |items| == 3
    requires CompareBy(criteria, items[1], items[2]) < 0
    requires CompareBy(criteria, items[0], items[1]) > 0
    requires CompareBy(criteria, items[0], items[2]) < 0
    ensures OrderedView(criteria, items) == [items[1], items[0], items[2]]
  {
    var t0, t1, t2 := Indexed(0, items[0]), Indexed(1, items[1]), Indexed(2, items[2]);
    TagOfThree(items);
    CompositeByValue(criteria, t1, t2);
    CompositeByValue(criteria, t0, t1);
    CompositeByValue(criteria, t0, t2);
    SortThree(Composite(criteria), t0, t1, t2);
    ValuesOfThree(t1, t0, t2);
  }

  lemma ValuesOfThree<T>(x: Indexed<T>, y: Indexed<T>, z: Indexed<T>)
    ensures Values([x, y, z]) == [x.value, y.value, z.value]
  {
    var s := [x, y, z];
    assert Values(s)[0] == x.value && Values(s)[1] == y.value && Values(s)[2] == z.value;
  }

  lemma TagOfThree<T>(items: seq<T>)
    requires |items| == 3
    ensures Tag(items) == [Indexed(0, items[0]), Indexed(1, items[1]), Indexed(2, items[2])]
  {
  }

  /** Sorting three elements of which only the first two are out of order swaps those two. */
  lemma SortThree<T>(c: Comparator<T>, x: T, y: T, z: T)
    requires c(y, z) <= 0 && c(x, y) > 0 && c(x, z) <= 0
    ensures Sort(c, [x, y, z]) == [y, x, z]
  {
    var zs, yzs, xyzs := [z], [y, z], [x, y, z];
    assert yzs[1..] == zs && xyzs[1..] == yzs && zs[1..] == [];
    assert Sort(c, zs) == Insert(c, z, []) == zs;
    assert Sort(c, yzs) == Insert(c, y, zs) == yzs;
    assert Insert(c, x, yzs) == [y] + Insert(c, x, zs) == [y, x, z];
    assert Sort(c, xyzs) == Insert(c, x, yzs);
  }

  /** Sorted by the first component alone, the two pairs that tie keep their input order. */
  lemma SortByFirstKeepsTiesExample()
    ensures OrderedView(ByFirstThenSecond()[..1], [(1, 2), (1, 1), (2, 1)]) == [(1, 2), (1, 1), (2, 1)]
  {
    var items := [(1, 2), (1, 1), (2, 1)];
    var primary := ByFirstThenSecond()[..1];
    forall i, j | 0 <= i < j < |items| ensures Lexicographic(primary)(items[i], items[j]) <= 0 {
      CriterionCompares(First, Null, CompareNumbers, items[i], items[j]);
    }
    ByFirstThenSecondPreorders();
    OrderedViewOfSorted(primary, items);
  }
}
