/**
 * The stateful half of `orderBy`/`thenBy`: the stages of one chain share a single
 * mutable comparator list, each `thenBy` appends to it, and every `iterator()` call
 * reads the upstream afresh and sorts it with the criteria in the list at that time.
 */
module Ordered {
  import opened JavaLang
  import opened Ordering

  /** The `ArrayList<Comparator<TSource>>` that every stage of one chain holds. */
  class ComparatorList<T> {
    var items: seq<Comparator<T>>

    constructor ()
      ensures items == []
    {
      items := [];
    }

    method Add(c: Comparator<T>)
      modifies this
      ensures items == old(items) + [c]
    {
      items := items + [c];
    }
  }

  /** What an `OrderedIterable` iterates: the original source, or the ordered stage `thenBy` was called on. */
  datatype Upstream<T(!new), K(!new)> = Plain(items: seq<T>) | Stage(stage: OrderedTraversable<T, K>)

  class OrderedTraversable<T(!new), K(!new)> {
    const upstream: Upstream<T, K>
    /** The list shared with every other stage of the chain. */
    const comparators: ComparatorList<T>
    /** The chain's original source, and how many `thenBy` calls lie between it and this stage. */
    ghost const base: seq<T>
    ghost const depth: nat

    /** Every stage of a chain sits over the same original source and holds the same list. */
    ghost predicate Valid()
      decreases depth
    {
      match upstream
      case Plain(items) => depth == 0 && base == items
      case Stage(s) => s.depth < depth && s.comparators == comparators && s.base == base && s.Valid()
    }

    /**
     * `create(source, keySelector, comparator, descending)`: no list is passed in,
     * so the `OrderedIterable` constructor starts a new one holding this one criterion.
     */
    constructor (source: seq<T>, keySelector: T -> K, comparator: Ref<Comparator<K>>, natural: Comparator<K>, descending: bool)
      ensures Valid() && upstream == Plain(source) && base == source
      ensures fresh(comparators)
      ensures comparators.items == [Criterion(keySelector, comparator, natural, descending)]
    {
      var list := new ComparatorList();
      list.Add(Criterion(keySelector, comparator, natural, descending));
      upstream := Plain(source);
      comparators := list;
      base := source;
      depth := 0;
    }

    /**
     * The stage `thenBy`/`thenByDescending` builds: its source is `previous` itself,
     * and its criterion is appended to `previous`'s own list.
     */
    constructor Then(previous: OrderedTraversable<T, K>, keySelector: T -> K, comparator: Ref<Comparator<K>>,
                     natural: Comparator<K>, descending: bool)
      requires previous.Valid()
      modifies previous.comparators
      ensures Valid() && upstream == Stage(previous) && base == previous.base
      ensures comparators == previous.comparators
      ensures comparators.items == old(previous.comparators.items) + [Criterion(keySelector, comparator, natural, descending)]
    {
      previous.comparators.Add(Criterion(keySelector, comparator, natural, descending));
      upstream := Stage(previous);
      comparators := previous.comparators;
      base := previous.base;
      depth := previous.depth + 1;
    }

    /**
     * `thenBy(keySelector, comparator)`: the new stage shares this stage's list, so
     * this stage's own ordering gains the criterion as well. The one-argument
     * overload passes a null comparator.
     */
    method ThenBy(keySelector: T -> K, comparator: Ref<Comparator<K>>, natural: Comparator<K>)
      returns (next: OrderedTraversable<T, K>)
      requires Valid()
      modifies comparators
      ensures fresh(next) && next.Valid()
      ensures next.upstream == Stage(this) && next.base == base && next.comparators == comparators
      ensures comparators.items == old(comparators.items) + [Criterion(keySelector, comparator, natural, false)]
    {
      next := new OrderedTraversable.Then(this, keySelector, comparator, natural, false);
    }

    /** `thenByDescending(keySelector, comparator)`: as `ThenBy`, with a descending criterion. */
    method ThenByDescending(keySelector: T -> K, comparator: Ref<Comparator<K>>, natural: Comparator<K>)
      returns (next: OrderedTraversable<T, K>)
      requires Valid()
      modifies comparators
      ensures fresh(next) && next.Valid()
      ensures next.upstream == Stage(this) && next.base == base && next.comparators == comparators
      ensures comparators.items == old(comparators.items) + [Criterion(keySelector, comparator, natural, true)]
    {
      next := new OrderedTraversable.Then(this, keySelector, comparator, natural, true);
    }

    /**
     * `iterator()`: reads the whole upstream again, pairs each item with its input
     * position, sorts with the composite comparator over the criteria now in the
     * list, and strips the positions. A `thenBy` stage's upstream is the stage it was
     * called on, which has already sorted by the same list; sorting again changes
     * nothing, so every stage yields the original source ordered by the whole list.
     */
    method Iterator() returns (out: seq<T>)
      requires Valid() && AllPreorders(comparators.items)
      ensures out == OrderedView(comparators.items, base)
      decreases depth
    {
      var source: seq<T>;
      match upstream {
        case Plain(items) =>
          source := items;
        case Stage(s) =>
          source := s.Iterator();
      }
      var tagged := TagItems(source);
      tagged := Sort(Composite(comparators.items), tagged);
      out := Values(tagged);
      if upstream.Stage? {
        OrderedViewIdempotent(comparators.items, base);
      }
    }
  }

  /** The counting loop of `iterator()`: each item read once and paired with a running index. */
  method TagItems<T>(source: seq<T>) returns (tagged: seq<Indexed<T>>)
    ensures tagged == Tag(source)
  {
    tagged := [];
    var index: nat := 0;
    while index < |source|
      invariant index <= |source|
      invariant tagged == Tag(source)[..index]
    {
      tagged := tagged + [Indexed(index, source[index])];
      index := index + 1;
    }
  }

  /**
   * Ordering `[(1, 2), (1, 1), (2, 1)]` by the first component keeps the two tied
   * pairs in input order. After `thenBy` on the second component, iterating the
   * receiver again also orders that tie, and the new stage yields the same.
   */
  method ThenByExtendsReceiver() returns (before: seq<(int, int)>, after: seq<(int, int)>, chained: seq<(int, int)>)
    ensures before == [(1, 2), (1, 1), (2, 1)]
    ensures after == [(1, 1), (1, 2), (2, 1)]
    ensures chained == after
  {
    var items := [(1, 2), (1, 1), (2, 1)];
    var ordered := new OrderedTraversable(items, First, Null, CompareNumbers, false);
    ByFirstThenSecondPreorders();
    assert ordered.comparators.items == ByFirstThenSecond()[..1];
    before := ordered.Iterator();
    SortByFirstKeepsTiesExample();
    var next := ordered.ThenBy(Second, Null, CompareNumbers);
    assert ordered.comparators.items == ByFirstThenSecond();
    after := ordered.Iterator();
    chained := next.Iterator();
    SortByFirstThenSecondExample(items);
  }
}
