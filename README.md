# ch.julien query core in Dafny

This project models the core of the `ch.julien` LINQ-style query library for
Java. It covers:

- the single-step `computeNext` state machines of the pipeline stages
  `combine` (`CombinationIterator`, and the identical `PermutationIterator`),
  `take` and `skipWhile`;
- the stable multi-key ordering behind `orderBy`/`thenBy`
  (`OrderedTraversableImpl`);
- the `Option` sum type;
- the predicate combinators and string predicates of `Predicates`;
- the `joinOn`, `sum` and `product` accumulators of `Accumulators`.

Each stage's parent iterator is a finite sequence plus a read cursor. One call
of `computeNext` returns `End` (the source's `computationEnd()`) or
`Value(x)`. Java `null` is the `Ref` datatype (`Null | NonNull(v)`), and a
thrown exception is the `Throws` case of `Result`.

Layout, one module per file:

- `javalang.dfy`: `Ref`, `Result` and Java string conversion.
- `iteration.dfy`: the `Step` result of one `computeNext` call.
- `option.dfy` (module `Monad`): `Option` and its laws.
- `predicates.dfy`: `Predicates`.
- `accumulators.dfy`: `Accumulators`, with two's-complement wrap-around at
  8, 16, 32 and 64 bits.
- `take.dfy` and `skipwhile.dfy`: one class per iterator. Each has a
  `ComputeNext` method, and a drain method that drives it to `End`.
- `combination.dfy`: the specification and the iterator class.
  - The specification is the outer-major product `Product(outer, inner)`.
  - `Transition` is one `computeNext` call as a pure function of the
    iterator's fields.
  - `Inv` is the invariant between calls.
  - `CombinationIterator` is a class whose `ComputeNext` performs
    `Transition` in place.
- `permutation.dfy`: `PermutationIterator`, the same class under its own
  flag name. Its `ComputeNext` is specified by the same `Transition`, so the
  two iterators are one machine.
- `ordering.dfy`: the pure side of the ordering.
  - Criteria and the default-comparator substitution.
  - The composite comparator with the index tie-break.
  - An insertion sort standing in for `Collections.sort`, and the result
    `OrderedView`.
  - Proofs that the result is a permutation, sorted, stable, and the only
    sorted permutation.
- `ordered.dfy`: the stateful side.
  - `ComparatorList` is the shared, mutable `ArrayList` of criteria.
  - `OrderedTraversable` is one ordered stage, with `ThenBy`,
    `ThenByDescending` and `Iterator`.

Two behaviours of the code worth noting:

- `thenBy`/`thenByDescending` do mutate the ordering they are called on. The
  new stage is given the receiver's own comparator list, and the new
  criterion is appended to that list (`OrderedTraversableImpl.java:34`, `:45`,
  `:80`). Iterating the receiver again therefore also applies the new
  criterion (`Ordered.ThenByExtendsReceiver`).
- The ordered result is not materialised once. Every `iterator()` call reads
  the upstream again and sorts it again. A `thenBy` stage's upstream is the
  stage it was called on, so the data is sorted twice. The second sort
  changes nothing (`Ordering.OrderedViewIdempotent`).

## Model

| member | source | states |
|---|---|---|
| JavaLang.ToJavaString | query/src/main/java/ch/julien/query/util/Accumulators.java:21 | string concatenation turns a null reference into "null" and leaves any other string as it is |
| Monad.Option.HasValue | common/src/main/java/ch/julien/common/monad/Option.java:41-77 | `hasValue()` (declared at line 24) is true exactly on `Some` (lines 75-77) and false on `none()` (lines 41-43); `NoneOf`, `SomeOf` and `Get` state it against the other operations |
| Monad.Option.Get | common/src/main/java/ch/julien/common/monad/Option.java:46-82 | `get()` succeeds exactly on `Some` and returns the payload; on `None` it throws UnsupportedOperationException |
| Monad.Option.GetOrElse | common/src/main/java/ch/julien/common/monad/Option.java:51-87 | `getOrElse(d)` never fails: the payload when `get()` succeeds, `d` when it throws |
| Monad.Option.Or | common/src/main/java/ch/julien/common/monad/Option.java:57-92 | `or(o)` is the receiver on `Some` and `o` on `None`; the result has a value iff either one does |
| Monad.Option.OrOption | common/src/main/java/ch/julien/common/monad/Option.java:62-97 | `orOption(x)` always has a value, and its `get()` is `getOrElse(x)` of the receiver |
| Monad.NoneOf | common/src/main/java/ch/julien/common/monad/Option.java:4-9 | `none()` has no value, and `get()` on it throws |
| Monad.SomeOf | common/src/main/java/ch/julien/common/monad/Option.java:11-13 | `some(v)` has a value and `get()` returns `v`, even for a null `v` |
| Monad.FromNullable | common/src/main/java/ch/julien/common/monad/Option.java:18-20 | `fromNullable(v)` has a value iff `v` is non-null, and then it is `some(v)` |
| Monad.OptionEquals | common/src/main/java/ch/julien/common/monad/Option.java:100-111 | the null-safe `equals` holds exactly when the two options are the same value: two `Some` with equal payloads (null equals only null), or `None` with `None` |
| Monad.SomeRoundTrip | common/src/main/java/ch/julien/common/monad/Option.java:75-91 | `some(v)` gives `v` back through `get()` and `getOrElse`, and `or(none())` leaves it unchanged |
| Monad.OrMonoid | common/src/main/java/ch/julien/common/monad/Option.java:57-92 | `none()` is the identity of `or` on both sides, and `or` is associative |
| Monad.OrOptionIsOrSome | common/src/main/java/ch/julien/common/monad/Option.java:62-97 | `orOption(x)` equals `or(some(x))`, and `getOrElse(x)` agrees on both |
| Monad.FromNullableGetOrElse | common/src/main/java/ch/julien/common/monad/Option.java:18-20 | `fromNullable(v).getOrElse(null)` is `v` again |
| Predicates.All | query/src/main/java/ch/julien/query/util/Predicates.java:259-270 | `all()` selects every element |
| Predicates.NoneSelected | query/src/main/java/ch/julien/query/util/Predicates.java:275-286 | `none()` selects no element |
| Predicates.NotNull | query/src/main/java/ch/julien/query/util/Predicates.java:20-27 | `notNull()` holds exactly on non-null references |
| Predicates.Not | query/src/main/java/ch/julien/query/util/Predicates.java:107-118 | `not(p)` answers the opposite of `p` on every argument |
| Predicates.AndEvaluation | query/src/main/java/ch/julien/query/util/Predicates.java:124-134 | the `and` loop returns true iff every predicate holds; it invokes the predicates up to the first failing one and none after it |
| Predicates.OrEvaluation | query/src/main/java/ch/julien/query/util/Predicates.java:146-156 | the `or` loop returns true iff some predicate holds; it invokes the predicates up to the first holding one and none after it |
| Predicates.And | query/src/main/java/ch/julien/query/util/Predicates.java:124-140 | `and(ps)` holds iff every predicate in `ps` holds; an empty list holds everywhere |
| Predicates.Or | query/src/main/java/ch/julien/query/util/Predicates.java:146-162 | `or(ps)` holds iff some predicate in `ps` holds; an empty list holds nowhere |
| Predicates.CountHolding | query/src/main/java/ch/julien/query/util/Predicates.java:172-177 | the `select(...).count()` inside `xor` is at most the number of predicates, and zero iff none holds |
| Predicates.Xor | query/src/main/java/ch/julien/query/util/Predicates.java:168-184 | `xor(ps)` counts the holding predicates and compares the count with one, so it holds iff exactly one predicate holds |
| Predicates.CountOfSingle | query/src/main/java/ch/julien/query/util/Predicates.java:172-177 | one holding predicate, with every other one failing, gives a count of one |
| Predicates.SingleOfCount | query/src/main/java/ch/julien/query/util/Predicates.java:172-177 | a count of one names the index of the single holding predicate, and every other predicate fails |
| Predicates.CountOneIsExactlyOne | query/src/main/java/ch/julien/query/util/Predicates.java:172-177 | the count of holding predicates is one iff exactly one predicate holds on `x` (both directions) |
| Predicates.XorIsNotParity | query/src/main/java/ch/julien/query/util/Predicates.java:168-177 | with three predicates that all hold, `xor` is false: it counts and does not compute parity |
| Predicates.NotNot | query/src/main/java/ch/julien/query/util/Predicates.java:107-112 | `not(not(p))` agrees with `p` |
| Predicates.NotAndIsOrNot | query/src/main/java/ch/julien/query/util/Predicates.java:107-155 | De Morgan: `not(and(ps))` agrees with `or` of the negated predicates |
| Predicates.NotEmptyString | query/src/main/java/ch/julien/query/util/Predicates.java:191-197 | `notEmptyString()` is false for null and for "", and true otherwise |
| Predicates.MatchesFrom | query/src/main/java/ch/julien/query/util/Predicates.java:209 | the character-by-character comparison inside `startsWith` holds iff the slice of the string equals the rest of the prefix |
| Predicates.StartsWithAt | query/src/main/java/ch/julien/query/util/Predicates.java:209 | `String.startsWith(prefix, offset)` holds iff the prefix fits at a non-negative offset and the slice there equals it |
| Predicates.StringStartingWith | query/src/main/java/ch/julien/query/util/Predicates.java:205-211 | `stringStartingWith(pre)` is false for null, and otherwise holds iff `pre` is a prefix of the string |
| Predicates.StringEndingWith | query/src/main/java/ch/julien/query/util/Predicates.java:219-225 | `stringEndingWith(suf)` is false for null, and otherwise holds iff `suf` is a suffix of the string |
| Predicates.IfHasValue | query/src/main/java/ch/julien/query/util/Predicates.java:247-254 | `ifHasValue()` selects exactly the options whose `get()` succeeds |
| Predicates.IfHasValueOfFromNullable | query/src/main/java/ch/julien/query/util/Predicates.java:247-254 | on `fromNullable(v)`, `ifHasValue` agrees with `notNull` on `v` |
| Accumulators.Narrow | query/src/main/java/ch/julien/query/util/Accumulators.java:34 | a narrowing cast to 8, 16, 32 or 64 bits returns a value inside that width's signed range |
| Accumulators.NarrowIsCongruent | query/src/main/java/ch/julien/query/util/Accumulators.java:34 | narrowing keeps the value's remainder modulo 2^w |
| Accumulators.NarrowCongruent | query/src/main/java/ch/julien/query/util/Accumulators.java:44 | two values with the same remainder modulo 2^w narrow to the same result |
| Accumulators.NarrowInRange | query/src/main/java/ch/julien/query/util/Accumulators.java:34 | a value already inside the width's range is left unchanged by narrowing |
| Accumulators.Wrapped | query/src/main/java/ch/julien/query/util/Accumulators.java:33-44 | the result keeps the argument's box class, and its value is the narrowed value |
| Accumulators.ByteValue | query/src/main/java/ch/julien/query/util/Accumulators.java:34 | `Number.byteValue()`: congruent to the value modulo 2^8, and equal to it when it fits in a `byte` |
| Accumulators.ShortValue | query/src/main/java/ch/julien/query/util/Accumulators.java:44 | `Number.shortValue()`: congruent to the value modulo 2^16, and equal to it when it fits in a `short` |
| Accumulators.IntValue | query/src/main/java/ch/julien/query/util/Accumulators.java:40 | `Number.intValue()`: congruent to the value modulo 2^32, and equal to it when it fits in an `int` |
| Accumulators.LongValue | query/src/main/java/ch/julien/query/util/Accumulators.java:42 | `Number.longValue()`: congruent to the value modulo 2^64, and equal to it when it fits in a `long` |
| Accumulators.IntAdd | query/src/main/java/ch/julien/query/util/Accumulators.java:40 | Java `int` `+`: congruent to the exact sum modulo 2^32, and the exact sum when it does not overflow |
| Accumulators.IntMul | query/src/main/java/ch/julien/query/util/Accumulators.java:66 | Java `int` `*`: congruent to the exact product modulo 2^32, and the exact product when it does not overflow |
| Accumulators.LongAdd | query/src/main/java/ch/julien/query/util/Accumulators.java:42 | Java `long` `+`: congruent to the exact sum modulo 2^64, and the exact sum when it does not overflow |
| Accumulators.LongMul | query/src/main/java/ch/julien/query/util/Accumulators.java:68 | Java `long` `*`: congruent to the exact product modulo 2^64, and the exact product when it does not overflow |
| Accumulators.ByteSum | query/src/main/java/ch/julien/query/util/Accumulators.java:34 | the byte branch of `sum`: the int sum of the two byte values, narrowed to a byte, is the exact sum wrapped at 8 bits |
| Accumulators.ShortSum | query/src/main/java/ch/julien/query/util/Accumulators.java:44 | the short branch of `sum` is the exact sum wrapped at 16 bits |
| Accumulators.IntegerSum | query/src/main/java/ch/julien/query/util/Accumulators.java:40 | the Integer branch of `sum` (int `+`) is the exact sum wrapped at 32 bits |
| Accumulators.LongSum | query/src/main/java/ch/julien/query/util/Accumulators.java:42 | the Long branch of `sum` (long `+`) is the exact sum wrapped at 64 bits |
| Accumulators.ByteProduct | query/src/main/java/ch/julien/query/util/Accumulators.java:60 | the byte branch of `product` is the exact product wrapped at 8 bits |
| Accumulators.ShortProduct | query/src/main/java/ch/julien/query/util/Accumulators.java:70 | the short branch of `product` is the exact product wrapped at 16 bits |
| Accumulators.IntegerProduct | query/src/main/java/ch/julien/query/util/Accumulators.java:66 | the Integer branch of `product` is the exact product wrapped at 32 bits |
| Accumulators.LongProduct | query/src/main/java/ch/julien/query/util/Accumulators.java:68 | the Long branch of `product` is the exact product wrapped at 64 bits |
| Accumulators.Sum | query/src/main/java/ch/julien/query/util/Accumulators.java:29-50 | the class of `accumulate` selects the branch, and `source` is narrowed to it; the result is that class holding the exact sum wrapped to its width; any other integral class throws UnsupportedOperationException |
| Accumulators.Product | query/src/main/java/ch/julien/query/util/Accumulators.java:55-76 | the same dispatch for `*`: the exact product wrapped to the class's width; any other class throws |
| Accumulators.SameClassWidth | query/src/main/java/ch/julien/query/util/Accumulators.java:33-44 | numbers of one box class have one width |
| Accumulators.SumCommutative | query/src/main/java/ch/julien/query/util/Accumulators.java:29-50 | within one class, `sum().accumulate(a, b)` equals `sum().accumulate(b, a)` |
| Accumulators.SumAssociative | query/src/main/java/ch/julien/query/util/Accumulators.java:29-50 | within one class, `(a + b) + c` equals `a + (b + c)`, whatever wraps around on the way |
| Accumulators.ProductCommutative | query/src/main/java/ch/julien/query/util/Accumulators.java:55-76 | within one class, `product` is commutative |
| Accumulators.ProductAssociative | query/src/main/java/ch/julien/query/util/Accumulators.java:55-76 | within one class, `product` is associative, whatever wraps around on the way |
| Accumulators.SumExamples | query/src/main/java/ch/julien/query/util/Accumulators.java:33-44 | Integer 1 + 1 is 2, Byte 127 + 1 wraps to -128, and Short 256 * 256 wraps to 0 |
| Accumulators.JoinSeparator | query/src/main/java/ch/julien/query/util/Accumulators.java:15-18 | the separator is ", " for a null or empty argument and the argument otherwise; it is never empty |
| Accumulators.JoinOn | query/src/main/java/ch/julien/query/util/Accumulators.java:14-24 | `accumulate(a, s)` is `a`, then the separator, then `s`, with null turned into "null" |
| Accumulators.JoinOnKeepsBoth | query/src/main/java/ch/julien/query/util/Accumulators.java:19-23 | a joined pair is a strict extension of the first string, ends with the second after the separator, and is longer than the two together: the separator is never empty |
| Accumulators.FoldJoinOnFrom | query/src/main/java/ch/julien/query/util/Accumulators.java:19-23 | folding `joinOn` from a seed appends the separator and each part in turn |
| Accumulators.FoldJoinOn | query/src/main/java/ch/julien/query/util/Accumulators.java:14-24 | aggregating strings with `joinOn(sep)` gives the parts in order with the separator between neighbours |
| Take.Taken | query/src/main/java/ch/julien/query/core/TakeIterator.java:14-20 | what `take(count)` yields is never longer than the source, and is empty for `count <= 0` |
| Take.Clamp | query/src/main/java/ch/julien/query/core/TakeIterator.java:15 | the number of elements taken is `min(max(count, 0), length)` |
| Take.TakenIsPrefix | query/src/main/java/ch/julien/query/core/TakeIterator.java:14-20 | `take(count)` yields exactly the first `min(max(count, 0), L)` source elements, in order |
| Take.TakenMonotone | query/src/main/java/ch/julien/query/core/TakeIterator.java:14-20 | taking from a prefix of the source yields a prefix of what the whole source yields |
| Take.TakeIterator.constructor | query/src/main/java/ch/julien/query/core/TakeIterator.java:8-11 | the counter starts at `count`, and nothing has been read |
| Take.TakeIterator.ComputeNext | query/src/main/java/ch/julien/query/core/TakeIterator.java:14-20 | returns an element iff the parent has one and `remaining` was positive; `remaining` drops only when the parent had a next element; at `End` the cursor stays and the output is `Taken(count, parent)` |
| Take.TakeAll | query/src/main/java/ch/julien/query/core/TakeIterator.java:14-20 | driving a `take(count)` stage to `End` yields `Taken(count, items)` |
| Take.TakeExample | query/src/main/java/ch/julien/query/core/TakeIterator.java:14-20 | three of five is `[1, 2, 3]`; a zero or negative count yields nothing; a count above the length yields everything |
| SkipWhile.Skipped | query/src/main/java/ch/julien/query/core/SkipWhileIterator.java:25 | the leading run of elements satisfying the predicate: every element in it satisfies it, and the next element does not |
| SkipWhile.DropWhileIsSuffix | query/src/main/java/ch/julien/query/core/SkipWhileIterator.java:21-32 | the drop-while result is the source after its leading run |
| SkipWhile.DropWhileSpec | query/src/main/java/ch/julien/query/core/SkipWhileIterator.java:21-32 | only elements satisfying the predicate are dropped, the rest is kept in order, and the first kept element fails the predicate |
| SkipWhile.SkipWhileIterator.constructor | query/src/main/java/ch/julien/query/core/SkipWhileIterator.java:12-18 | skipping has not stopped yet and nothing has been read |
| SkipWhile.SkipWhileIterator.ComputeNext | query/src/main/java/ch/julien/query/core/SkipWhileIterator.java:21-32 | the flag only goes from false to true; before stopping, the returned element fails the predicate; after stopping, each call reads and returns exactly one element; the predicate is invoked on every element read; at `End` the output is `DropWhile(pred, parent)` |
| SkipWhile.SkipWhileAll | query/src/main/java/ch/julien/query/core/SkipWhileIterator.java:21-32 | driving a `skipWhile(pred)` stage to `End` yields `DropWhile(pred, items)` |
| SkipWhile.SkipWhileExample | query/src/main/java/ch/julien/query/core/SkipWhileIterator.java:25-27 | skipping `x < 3` over `[1, 2, 3, 4, 1]` yields `[3, 4, 1]` |
| Combination.Row | query/src/main/java/ch/julien/query/core/CombinationIterator.java:44-49 | one outer element paired with each inner element, in inner order |
| Combination.Product | query/src/main/java/ch/julien/query/core/CombinationIterator.java:26-53 | the outer-major product that the iterator yields; its length and indexing are proved in `ProductLength` and `ProductAt` |
| Combination.ProductLength | query/src/main/java/ch/julien/query/core/CombinationIterator.java:26-53 | the product has `\|outer\| * \|inner\|` pairs |
| Combination.ProductAt | query/src/main/java/ch/julien/query/core/CombinationIterator.java:26-53 | pair `(outer[i], inner[j])` sits at position `i * \|inner\| + j`, so the order is outer-major |
| Combination.ProductPrefix | query/src/main/java/ch/julien/query/core/CombinationIterator.java:26-53 | the product over an outer prefix is a prefix of the whole product |
| Combination.ProductEmptyInner | query/src/main/java/ch/julien/query/core/CombinationIterator.java:44-51 | with no inner elements there are no pairs |
| Combination.Initial | query/src/main/java/ch/julien/query/core/CombinationIterator.java:11-14 | the fields after construction: no current element, an empty cache that is not complete, and the inner source not yet read |
| Combination.InnerHasNext | query/src/main/java/ch/julien/query/core/CombinationIterator.java:27 | `otherIterator.hasNext()`: the inner source or the cache replay has an element left |
| Combination.Reinitialize | query/src/main/java/ch/julien/query/core/CombinationIterator.java:27-32 | when `otherIterator` is exhausted, the current element is dropped, the iterator switches to a replay of the cache from its start and the cache is marked complete; the cache and both read cursors are unchanged; otherwise nothing changes |
| Combination.ReadInner | query/src/main/java/ch/julien/query/core/CombinationIterator.java:44-48 | returns the next inner element (from the inner source, or from the cache replay), advances that cursor by one, and appends the element to the cache exactly when the cache is not complete |
| Combination.PullOuter | query/src/main/java/ch/julien/query/core/CombinationIterator.java:35-41 | after the outer-loop block there is a current outer element |
| Combination.Transition | query/src/main/java/ch/julien/query/core/CombinationIterator.java:26-53 | one `computeNext` call: a returned pair's first component is the current outer element; at most one outer element is read; the cache-complete flag becomes true exactly when it was already true or `otherIterator` was exhausted |
| Combination.Inv | query/src/main/java/ch/julien/query/core/CombinationIterator.java:11-53 | the invariant between calls: before the cache is complete it is the inner prefix read so far and only the first outer element has been taken; afterwards it is the whole inner source; the pairs produced are the rows of the earlier outer elements plus the current row up to the inner cursor |
| Combination.InitialInv | query/src/main/java/ch/julien/query/core/CombinationIterator.java:11-23 | the invariant holds after construction, with nothing produced |
| Combination.InvProducedIsPrefix | query/src/main/java/ch/julien/query/core/CombinationIterator.java:26-53 | whatever has been produced is a prefix of the outer-major product |
| Combination.ReinitializeInv | query/src/main/java/ch/julien/query/core/CombinationIterator.java:27-32 | the reinitialisation block keeps the invariant; when it fires, the cache is complete and the whole inner source has been read |
| Combination.PullOuterInv | query/src/main/java/ch/julien/query/core/CombinationIterator.java:35-41 | taking the next outer element starts its row, and reads no inner element |
| Combination.RowInProgressShort | query/src/main/java/ch/julien/query/core/CombinationIterator.java:44-49 | while a row is in progress, fewer pairs than the whole product have been produced |
| Combination.ReadInnerInv | query/src/main/java/ch/julien/query/core/CombinationIterator.java:44-49 | reading the next inner element (cached while the cache is incomplete) extends the current row by one pair |
| Combination.NoInnerInv | query/src/main/java/ch/julien/query/core/CombinationIterator.java:44-51 | a row that cannot start from the beginning of the cache means the inner source is empty and nothing was produced |
| Combination.TransitionKeepsInv | query/src/main/java/ch/julien/query/core/CombinationIterator.java:26-53 | one call keeps the invariant, with the returned pair appended to the output |
| Combination.TransitionEndsExactly | query/src/main/java/ch/julien/query/core/CombinationIterator.java:26-53 | a call returns `End` iff the output so far is the whole outer-major product |
| Combination.TransitionMonotone | query/src/main/java/ch/julien/query/core/CombinationIterator.java:27-48 | the cache-complete flag never goes back; the inner source is read at most once per call and never after the cache is complete; the outer source is read at most once per call |
| Combination.TransitionInv | query/src/main/java/ch/julien/query/core/CombinationIterator.java:26-53 | the invariant, end and monotonicity facts about one call together |
| Combination.EmptyInnerYieldsNothing | query/src/main/java/ch/julien/query/core/CombinationIterator.java:27-51 | with an empty inner source every call returns `End`, whatever the outer length |
| Combination.ExhaustedOuterEnds | query/src/main/java/ch/julien/query/core/CombinationIterator.java:35-41 | with no current element and the outer source exhausted, the call returns `End` and reads nothing |
| Combination.EndReadsInnerOnce | query/src/main/java/ch/julien/query/core/CombinationIterator.java:27-52 | at `End` the inner source has been read exactly once, start to finish, or not at all when the outer source is empty |
| Combination.CombinationIterator.constructor | query/src/main/java/ch/julien/query/core/CombinationIterator.java:17-23 | the fields are the initial state, and nothing has been produced |
| Combination.CombinationIterator.OtherHasNext | query/src/main/java/ch/julien/query/core/CombinationIterator.java:27 | `otherIterator.hasNext()` on the fields |
| Combination.CombinationIterator.ReinitializeInnerLoop | query/src/main/java/ch/julien/query/core/CombinationIterator.java:27-32 | performs the reinitialisation block in place |
| Combination.CombinationIterator.NextOuter | query/src/main/java/ch/julien/query/core/CombinationIterator.java:35-41 | reports exhaustion iff there is no current element and the parent is at its end, and otherwise performs the outer-loop block |
| Combination.CombinationIterator.NextInner | query/src/main/java/ch/julien/query/core/CombinationIterator.java:44-48 | reads the next element of `otherIterator` and caches it unless the cache is complete |
| Combination.CombinationIterator.ComputeNext | query/src/main/java/ch/julien/query/core/CombinationIterator.java:26-53 | performs `Transition` in place, appends the returned pair to the output, keeps the invariant, and returns `End` iff the whole product was already produced |
| Combination.Combine | query/src/main/java/ch/julien/query/core/CombinationIterator.java:26-53 | draining the iterator yields exactly the outer-major product, and reads the inner source `\|inner\|` times (zero for an empty outer source) |
| Permutation.PermutationIterator.constructor | query/src/main/java/ch/julien/query/core/PermutationIterator.java:20-26 | the fields are the same initial state as `CombinationIterator`'s |
| Permutation.PermutationIterator.OtherHasNext | query/src/main/java/ch/julien/query/core/PermutationIterator.java:30 | `otherIterator.hasNext()` on the fields |
| Permutation.PermutationIterator.ReinitializeInnerLoop | query/src/main/java/ch/julien/query/core/PermutationIterator.java:30-35 | the reinitialisation block, setting `isCacheComplete`; the same `Reinitialize` step |
| Permutation.PermutationIterator.NextOuter | query/src/main/java/ch/julien/query/core/PermutationIterator.java:38-44 | the outer-loop block; the same `PullOuter` step |
| Permutation.PermutationIterator.NextInner | query/src/main/java/ch/julien/query/core/PermutationIterator.java:47-51 | the inner read, cached unless `isCacheComplete`; the same `ReadInner` step |
| Permutation.PermutationIterator.ComputeNext | query/src/main/java/ch/julien/query/core/PermutationIterator.java:28-56 | performs the same `Transition` as `CombinationIterator.ComputeNext`, so the two are one machine and produce identical outputs |
| Permutation.Permute | query/src/main/java/ch/julien/query/core/PermutationIterator.java:28-56 | draining the iterator yields exactly the outer-major product, and reads the inner source once |
| Ordering.StrictThenWeak | query/src/main/java/ch/julien/query/core/OrderedTraversableImpl.java:103 | under a total preorder, `a < b <= d` implies `a < d` |
| Ordering.WeakThenStrict | query/src/main/java/ch/julien/query/core/OrderedTraversableImpl.java:103 | under a total preorder, `a <= b < d` implies `a < d` |
| Ordering.ThenPreorder | query/src/main/java/ch/julien/query/core/OrderedTraversableImpl.java:107-115 | "the first comparator, and the second one on a tie" is a total preorder when both are |
| Ordering.Comparer | query/src/main/java/ch/julien/query/core/OrderedTraversableImpl.java:74 | a null key comparator is replaced by the default one, and any other is used as given |
| Ordering.Criterion | query/src/main/java/ch/julien/query/core/OrderedTraversableImpl.java:80-89 | the comparator `add`ed to the list: the key comparator (the default one when it is null) on the two selected keys, negated for a descending criterion |
| Ordering.CriterionCompares | query/src/main/java/ch/julien/query/core/OrderedTraversableImpl.java:80-89 | an ascending criterion returns the key comparator's result on the two keys, and a descending one returns its negation; with a null comparator the default one is used |
| Ordering.DescendingReverses | query/src/main/java/ch/julien/query/core/OrderedTraversableImpl.java:84-86 | descending puts `a` before `b` iff ascending puts `b` before `a` |
| Ordering.CriterionPreorder | query/src/main/java/ch/julien/query/core/OrderedTraversableImpl.java:80-89 | a criterion, ascending or descending, is a total preorder when its key comparator is |
| Ordering.CompareBy | query/src/main/java/ch/julien/query/core/OrderedTraversableImpl.java:107-113 | the criteria loop returns zero iff every criterion ties |
| Ordering.Lexicographic | query/src/main/java/ch/julien/query/core/OrderedTraversableImpl.java:107-113 | the criteria loop as a comparator; that the first non-tying criterion decides is `FirstDifferenceDecides`, and that it is a total preorder is `LexicographicPreorder` |
| Ordering.FirstDifferenceDecides | query/src/main/java/ch/julien/query/core/OrderedTraversableImpl.java:107-113 | the loop's result is that of the first criterion, in registration order, that does not tie |
| Ordering.LexicographicPreorder | query/src/main/java/ch/julien/query/core/OrderedTraversableImpl.java:107-113 | comparing by the criteria in order is a total preorder when every criterion is |
| Ordering.CompareNumbers | query/src/main/java/ch/julien/query/core/OrderedTraversableImpl.java:115 | `Long.compareTo` on the indices (and `Integer.compareTo` on the examples' keys): negative iff the first is smaller, zero iff they are equal |
| Ordering.Composite | query/src/main/java/ch/julien/query/core/OrderedTraversableImpl.java:104-117 | the comparator handed to `Collections.sort` ties exactly on equal criteria results and equal indices, and puts `x` first iff the criteria do or, on a full tie, `x` has the smaller input index |
| Ordering.CompositeByValue | query/src/main/java/ch/julien/query/core/OrderedTraversableImpl.java:104-117 | the sort's comparator is the criteria's result when they do not tie, and the index comparison when they do |
| Ordering.CompositePreorder | query/src/main/java/ch/julien/query/core/OrderedTraversableImpl.java:104-117 | the sort's comparator is a total preorder when every criterion is |
| Ordering.Insert | query/src/main/java/ch/julien/query/core/OrderedTraversableImpl.java:103 | one insertion step of the sort adds exactly the one element |
| Ordering.Sort | query/src/main/java/ch/julien/query/core/OrderedTraversableImpl.java:103-118 | sorting keeps the length and the multiset of the list |
| Ordering.SortedTail | query/src/main/java/ch/julien/query/core/OrderedTraversableImpl.java:103 | the tail of a sorted list is sorted |
| Ordering.ConsSorted | query/src/main/java/ch/julien/query/core/OrderedTraversableImpl.java:103 | an element at most every element of a sorted list can go in front of it |
| Ordering.HeadIsLeast | query/src/main/java/ch/julien/query/core/OrderedTraversableImpl.java:103 | the head of a sorted list is at most every element of the list |
| Ordering.InsertedElement | query/src/main/java/ch/julien/query/core/OrderedTraversableImpl.java:103 | an insertion step adds nothing but the inserted element |
| Ordering.InsertSorted | query/src/main/java/ch/julien/query/core/OrderedTraversableImpl.java:103 | inserting into a sorted list keeps it sorted under a total preorder |
| Ordering.SortSorted | query/src/main/java/ch/julien/query/core/OrderedTraversableImpl.java:103-118 | the sort's result is sorted under a total preorder |
| Ordering.DistinctTail | query/src/main/java/ch/julien/query/core/OrderedTraversableImpl.java:98-101 | the tail of a duplicate-free list is duplicate-free and does not hold the head |
| Ordering.ConsDistinct | query/src/main/java/ch/julien/query/core/OrderedTraversableImpl.java:98-101 | a new element in front of a duplicate-free list keeps it duplicate-free |
| Ordering.InsertDistinct | query/src/main/java/ch/julien/query/core/OrderedTraversableImpl.java:103 | inserting a new element keeps a list duplicate-free |
| Ordering.SortDistinct | query/src/main/java/ch/julien/query/core/OrderedTraversableImpl.java:103 | sorting keeps a list duplicate-free |
| Ordering.SortedHeadsAgree | query/src/main/java/ch/julien/query/core/OrderedTraversableImpl.java:103-118 | two sorted permutations of one list agree on the head, when only equal elements tie |
| Ordering.SortedUnique | query/src/main/java/ch/julien/query/core/OrderedTraversableImpl.java:103-118 | when only equal elements tie, a list has exactly one sorted permutation |
| Ordering.SamePermutationLength | query/src/main/java/ch/julien/query/core/OrderedTraversableImpl.java:103 | permutations of one another have one length |
| Ordering.SamePermutationTails | query/src/main/java/ch/julien/query/core/OrderedTraversableImpl.java:103 | permutations with the same head have permuted tails |
| Ordering.TailTiesOnlyEqual | query/src/main/java/ch/julien/query/core/OrderedTraversableImpl.java:103 | "only equal elements tie" carries over to the tail |
| Ordering.Tag | query/src/main/java/ch/julien/query/core/OrderedTraversableImpl.java:96-101 | item `k` is paired with index `k`, for every item |
| Ordering.Values | query/src/main/java/ch/julien/query/core/OrderedTraversableImpl.java:120-127 | stripping the indices keeps the length and each position's value |
| Ordering.Indices | query/src/main/java/ch/julien/query/core/OrderedTraversableImpl.java:120-127 | the original input positions, one per position of the sorted list |
| Ordering.OrderedView | query/src/main/java/ch/julien/query/core/OrderedTraversableImpl.java:94-128 | the ordered result has as many items as the source |
| Ordering.Ranking | query/src/main/java/ch/julien/query/core/OrderedTraversableImpl.java:94-128 | one input position for each output position |
| Ordering.ValuesOfInsert | query/src/main/java/ch/julien/query/core/OrderedTraversableImpl.java:103-127 | an insertion step adds exactly the inserted value to the stripped values |
| Ordering.ValuesOfSort | query/src/main/java/ch/julien/query/core/OrderedTraversableImpl.java:103-127 | sorting keeps the multiset of the stripped values |
| Ordering.ValuesOfTag | query/src/main/java/ch/julien/query/core/OrderedTraversableImpl.java:96-127 | stripping the indices from the tagged items gives the items back |
| Ordering.TagDistinct | query/src/main/java/ch/julien/query/core/OrderedTraversableImpl.java:96-101 | the tagged items are distinct |
| Ordering.SortedFromInput | query/src/main/java/ch/julien/query/core/OrderedTraversableImpl.java:96-118 | every element of the sorted list is an input item with its true input index |
| Ordering.OrderedViewPermutation | query/src/main/java/ch/julien/query/core/OrderedTraversableImpl.java:94-128 | the ordered result is a permutation of the source |
| Ordering.OrderedViewRanking | query/src/main/java/ch/julien/query/core/OrderedTraversableImpl.java:94-128 | output `k` is input item `Ranking[k]`, and the ranking lists distinct input positions, so each source item is used exactly once |
| Ordering.TaggedSorted | query/src/main/java/ch/julien/query/core/OrderedTraversableImpl.java:103-118 | the tagged items come out sorted by the composite comparator |
| Ordering.OrderedViewSorted | query/src/main/java/ch/julien/query/core/OrderedTraversableImpl.java:103-118 | the ordered result is sorted by the criteria in registration order, the first non-tying one deciding |
| Ordering.OrderedViewStable | query/src/main/java/ch/julien/query/core/OrderedTraversableImpl.java:96-115 | two output items that tie on every criterion keep their input order |
| Ordering.TaggedSortUnique | query/src/main/java/ch/julien/query/core/OrderedTraversableImpl.java:103-118 | any sorted permutation of the tagged items is the one the sort returns, so the result does not depend on the sort algorithm |
| Ordering.OrderedViewOfSorted | query/src/main/java/ch/julien/query/core/OrderedTraversableImpl.java:94-128 | a source already sorted by the criteria comes out unchanged |
| Ordering.OrderedViewIdempotent | query/src/main/java/ch/julien/query/core/OrderedTraversableImpl.java:94-128 | ordering an ordered result again changes nothing |
| Ordering.TiesKeepInputOrder | query/src/main/java/ch/julien/query/core/OrderedTraversableImpl.java:115 | when every pair of items ties on the criteria, the input order is kept exactly |
| Ordering.CompareNumbersPreorder | query/src/main/java/ch/julien/query/core/OrderedTraversableImpl.java:115 | the natural order of integers is a total preorder |
| Ordering.ByFirstThenSecondPreorders | query/src/main/java/ch/julien/query/core/OrderedTraversableImpl.java:80-89 | ordering pairs by the first component and then the second (and by the first alone) uses total preorders only |
| Ordering.PairsInOrder | query/src/main/java/ch/julien/query/core/OrderedTraversableImpl.java:107-113 | pairs in lexicographic order compare negative one way and positive the other |
| Ordering.SortByFirstThenSecondExample | query/src/main/java/ch/julien/query/core/OrderedTraversableImpl.java:94-128 | ordering `[(1, 2), (1, 1), (2, 1)]` by first then second component gives `[(1, 1), (1, 2), (2, 1)]` |
| Ordering.OrderedViewOfThree | query/src/main/java/ch/julien/query/core/OrderedTraversableImpl.java:94-128 | three items ordered by their comparisons: the middle one first, then the first, then the last |
| Ordering.ValuesOfThree | query/src/main/java/ch/julien/query/core/OrderedTraversableImpl.java:120-127 | stripping the indices of three tagged items |
| Ordering.TagOfThree | query/src/main/java/ch/julien/query/core/OrderedTraversableImpl.java:96-101 | tagging three items |
| Ordering.SortThree | query/src/main/java/ch/julien/query/core/OrderedTraversableImpl.java:103 | the insertion sort of three items in that order |
| Ordering.SortByFirstKeepsTiesExample | query/src/main/java/ch/julien/query/core/OrderedTraversableImpl.java:115 | ordering `[(1, 2), (1, 1), (2, 1)]` by the first component alone keeps the tied pairs in input order |
| Ordered.ComparatorList.constructor | query/src/main/java/ch/julien/query/core/OrderedTraversableImpl.java:77 | a new criteria list is empty |
| Ordered.ComparatorList.Add | query/src/main/java/ch/julien/query/core/OrderedTraversableImpl.java:80-89 | `add` appends the one criterion at the end |
| Ordered.OrderedTraversable.constructor | query/src/main/java/ch/julien/query/core/OrderedTraversableImpl.java:17-35 | `create` reads the given source and builds a fresh list holding the one criterion |
| Ordered.OrderedTraversable.Then | query/src/main/java/ch/julien/query/core/OrderedTraversableImpl.java:66-92 | the stage built by `thenBy` reads the previous stage and holds the previous stage's own list, with the criterion appended |
| Ordered.OrderedTraversable.ThenBy | query/src/main/java/ch/julien/query/core/OrderedTraversableImpl.java:37-47 | returns a new stage over the receiver that shares its list; the receiver's list gains the ascending criterion |
| Ordered.OrderedTraversable.ThenByDescending | query/src/main/java/ch/julien/query/core/OrderedTraversableImpl.java:49-59 | the same, with a descending criterion |
| Ordered.OrderedTraversable.Iterator | query/src/main/java/ch/julien/query/core/OrderedTraversableImpl.java:94-128 | reads the upstream again and returns the chain's original source ordered by the whole current list, for every stage of the chain |
| Ordered.TagItems | query/src/main/java/ch/julien/query/core/OrderedTraversableImpl.java:96-101 | the counting loop pairs every item with its input position |
| Ordered.ThenByExtendsReceiver | query/src/main/java/ch/julien/query/core/OrderedTraversableImpl.java:34-57 | after `thenBy`, iterating the receiver again also applies the new criterion, and gives the same as the new stage |

## Left out

- I/O: the parent iterators are finite sequences read through a cursor. The
  look-ahead buffering of the iterator base class is not part of this model.
  Only `computeNext` is modelled, and the drain methods stand for a consumer.
- `Check.notNull` on a source, key selector, predicate or other iterator is
  not modelled. The Dafny types of these parameters cannot be null, so the
  rejected case cannot arise.
- `CombinationIterator`/`PermutationIterator` with a null outer element are
  not modelled: outer elements are non-null here. The source uses
  `nextElement == null` to mean "no current element", so a null outer element
  would be paired with only one inner element.
- The iterator base class, `TraversableImpl`, `Query`, `Indexed`, `Tuple` and
  `DefaultComparator` are not part of this model. `DefaultComparator` is the
  `natural` parameter. `Indexed` is the `Indexed` datatype, with an unbounded
  index instead of a `long`. Stripping the indices through
  `TraversableImpl.map` is a plain function on values.
- Ordering.Sort: `Collections.sort` is not modelled. An insertion sort stands
  in for it, and `Ordering.TaggedSortUnique` shows that every sorted
  permutation is that same list.
- The comparators are assumed to be consistent total preorders
  (`AllPreorders`). For other comparators `Collections.sort` may throw, and
  that case is not modelled.
- Ordering.Criterion: `-1 * x` for `x == Integer.MIN_VALUE` does not wrap,
  because integers are unbounded here.
- Ordered.OrderedTraversable.Iterator: the in-place sort of the `ArrayList`
  is modelled as reassigning a sequence value.
- The one-argument `thenBy(keySelector)` and `thenByDescending(keySelector)`
  overloads are `ThenBy`/`ThenByDescending` with a `Null` comparator.
- Take.TakeIterator: `remaining` is an unbounded integer. The `long`
  wrap-around would need about 2^63 calls made after exhaustion.
- `sum`/`product` on `Double` and `Float` are not modelled: they are floating
  point. `OtherIntegral` stands for every other `Number` class, which throws.
- Predicates: `elementOfInstance`/`elementAssignableFrom` (reflection),
  `stringMatching` (regular expressions), `that`, the `toString` overrides and
  `notEmptyCollection`/`notEmptyMap`/`notEmptyArray` are not modelled.
- The `NullPointerException` cases of these members are not modelled, because
  their null arguments cannot be expressed in the model's types:
  Predicates.StringStartingWith and Predicates.StringEndingWith with a null
  prefix or suffix (on a non-null argument); Predicates.IfHasValue on a null
  option; Predicates.And, Predicates.Or and Predicates.Xor with a null array
  or a null predicate in it; Accumulators.Sum and Accumulators.Product with a
  null `accumulate` or a null `source`.
- Predicates.NotEmptyString, Predicates.StringStartingWith and
  Predicates.StringEndingWith: a Dafny `string` is a sequence of Unicode
  scalar values, while a Java `String` is a sequence of UTF-16 code units, so
  a Java string holding a lone surrogate cannot be represented. For
  well-formed strings `isEmpty`, `startsWith` and `endsWith` agree with the
  model, because UTF-16 is a prefix code.
- Option: object identity is not modelled. That covers `None` being one
  shared instance and `hashCode`. Equality is value equality, and the payload
  type's own `equals` is taken to be value equality too.
- `Funcs`, `ArrayUtils`, `Traversable` and `OrderedTraversable` are not part
  of this model.
