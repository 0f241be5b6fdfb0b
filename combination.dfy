/**
 * `combine(other)`: the cartesian product of the parent iterator (outer) and
 * another iterator (inner), in outer-major order. The inner iterator is read
 * once; its elements are cached while the first outer element is paired with
 * them, and every later outer element is paired with a replay of the cache.
 *
 * `Transition` is one `computeNext` call as a function of the state; the class
 * `CombinationIterator` performs it in place. Both iterators are finite
 * sequences with cursors. Outer elements are non-null references here.
 */
module Combination {
  import opened JavaLang
  import opened Iteration

  // ---------------------------------------------------------------------------
  // The specification: the outer-major product
  // ---------------------------------------------------------------------------

  /** `a` paired with each element of `ys`, in order. */
  function Row<A, B>(a: A, ys: seq<B>): (r: seq<(A, B)>)
    ensures |r| == |ys|
    ensures forall j :: 0 <= j < |ys| ==> r[j] == (a, ys[j])
  {
    seq(|ys|, j requires 0 <= j < |ys| => (a, ys[j]))
  }

  /** Every outer element paired with every inner element, the outer element varying slowest. */
  function Product<A, B>(xs: seq<A>, ys: seq<B>): (r: seq<(A, B)>)
  {
    if xs == [] then [] else Product(xs[..|xs| - 1], ys) + Row(xs[|xs| - 1], ys)
  }

  lemma MulMonotone(a: int, b: int, n: nat)
    requires a <= b
    ensures a * n <= b * n
  {
  }

  /** Row `p - 1` at offset `k` lies before the end of `rows` rows of width `n`. */
  lemma RowOffsetBelow(p: int, rows: int, n: int, k: int)
    requires 1 <= p <= rows && 0 <= k < n
    ensures (p - 1) * n + k < rows * n
  {
    assert (p - 1) * n + n == p * n;
    MulMonotone(p, rows, n);
  }

  /** The product has `|xs| * |ys|` pairs. */
  lemma {:induction false} ProductLength<A, B>(xs: seq<A>, ys: seq<B>)
    ensures |Product(xs, ys)| == |xs| * |ys|
  {
    if xs != [] {
      ProductLength(xs[..|xs| - 1], ys);
      assert (|xs| - 1) * |ys| + |ys| == |xs| * |ys|;
    }
  }

  /** Pair `(xs[i], ys[j])` sits at position `i * |ys| + j`: the order is outer-major. */
  lemma {:induction false} ProductAt<A, B>(xs: seq<A>, ys: seq<B>, i: nat, j: nat)
    requires i < |xs| && j < |ys|
    ensures i * |ys| + j < |Product(xs, ys)|
    ensures Product(xs, ys)[i * |ys| + j] == (xs[i], ys[j])
  {
    var init := xs[..|xs| - 1];
    ProductLength(init, ys);
    ProductLength(xs, ys);
    if i == |xs| - 1 {
      assert Product(xs, ys) == Product(init, ys) + Row(xs[i], ys);
    } else {
      MulMonotone(i + 1, |xs| - 1, |ys|);
      assert i * |ys| + j < (i + 1) * |ys|;
      ProductAt(init, ys, i, j);
    }
  }

  /** Extending the outer prefix by one element appends that element's row. */
  lemma ProductSnoc<A, B>(xs: seq<A>, ys: seq<B>, k: nat)
    requires k < |xs|
    ensures Product(xs[..k + 1], ys) == Product(xs[..k], ys) + Row(xs[k], ys)
  {
    assert xs[..k + 1][..k] == xs[..k];
  }

  /** Extending the inner prefix by one element appends one pair to the row. */
  lemma RowSnoc<A, B>(a: A, ys: seq<B>, k: nat)
    requires k < |ys|
    ensures Row(a, ys[..k + 1]) == Row(a, ys[..k]) + [(a, ys[k])]
  {
  }

  /** The product over an outer prefix is a prefix of the whole product. */
  lemma {:induction false} ProductPrefix<A, B>(xs: seq<A>, ys: seq<B>, k: nat)
    requires k <= |xs|
    ensures Product(xs[..k], ys) <= Product(xs, ys)
    decreases |xs| - k
  {
    if k < |xs| {
      ProductSnoc(xs, ys, k);
      ProductPrefix(xs, ys, k + 1);
    } else {
      assert xs[..k] == xs;
    }
  }

  /** With no inner elements there are no pairs. */
  lemma {:induction false} ProductEmptyInner<A, B>(xs: seq<A>, ys: seq<B>)
    requires ys == []
    ensures Product(xs, ys) == []
  {
    if xs != [] {
      ProductEmptyInner(xs[..|xs| - 1], ys);
    }
  }

  // ---------------------------------------------------------------------------
  // The state machine
  // ---------------------------------------------------------------------------

  /** Which iterator `otherIterator` currently is: the inner source, or a replay of the cache at a position. */
  datatype Cursor = OnSource | OnCache(pos: nat)

  /**
   * The fields of the iterator, plus the cursors of the two sources: `parentPos`
   * outer elements and `sourcePos` inner elements have been read from them.
   */
  datatype CombState<A, B> = CombState(
    parentPos: nat,
    nextElement: Ref<A>,
    otherIterator: Cursor,
    sourcePos: nat,
    cachedOtherElements: seq<B>,
    isCacheComplete: bool)

  /** The state right after construction. */
  function Initial<A, B>(): (s: CombState<A, B>)
    ensures s.parentPos == 0 && s.sourcePos == 0 && s.nextElement.Null?
    ensures s.otherIterator == OnSource && s.cachedOtherElements == [] && !s.isCacheComplete
  {
    CombState(0, Null, OnSource, 0, [], false)
  }

  /** The cursors lie within what they iterate over. */
  ghost predicate WellFormed<A, B>(outer: seq<A>, inner: seq<B>, s: CombState<A, B>)
  {
    && s.parentPos <= |outer|
    && s.sourcePos <= |inner|
    && (s.otherIterator.OnCache? ==> s.otherIterator.pos <= |s.cachedOtherElements|)
  }

  /** `otherIterator.hasNext()`. */
  function InnerHasNext<A, B>(inner: seq<B>, s: CombState<A, B>): bool
  {
    match s.otherIterator
    case OnSource => s.sourcePos < |inner|
    case OnCache(i) => i < |s.cachedOtherElements|
  }

  /** How far `otherIterator` has got in what it iterates over. */
  function InnerPos<A, B>(s: CombState<A, B>): nat
  {
    match s.otherIterator
    case OnSource => s.sourcePos
    case OnCache(i) => i
  }

  /** The "reinitialize inner loop" block: taken when `otherIterator` is exhausted. */
  function Reinitialize<A, B>(inner: seq<B>, s: CombState<A, B>): (t: CombState<A, B>)
    ensures InnerHasNext(inner, s) ==> t == s
    ensures !InnerHasNext(inner, s) ==>
              t.nextElement.Null? && t.otherIterator == OnCache(0) && t.isCacheComplete
    ensures t.cachedOtherElements == s.cachedOtherElements && t.parentPos == s.parentPos && t.sourcePos == s.sourcePos
  {
    if InnerHasNext(inner, s) then s
    else s.(nextElement := Null, otherIterator := OnCache(0), isCacheComplete := true)
  }

  /** The inner-loop block: read the next inner element and cache it unless the cache is complete. */
  function ReadInner<A, B>(inner: seq<B>, s: CombState<A, B>): (result: (CombState<A, B>, B))
    requires s.sourcePos <= |inner|
    requires InnerHasNext(inner, s)
    ensures result.1 == if s.otherIterator.OnSource? then inner[s.sourcePos] else s.cachedOtherElements[s.otherIterator.pos]
    ensures InnerPos(result.0) == InnerPos(s) + 1 && result.0.otherIterator.OnCache? == s.otherIterator.OnCache?
    ensures result.0.cachedOtherElements == s.cachedOtherElements + (if s.isCacheComplete then [] else [result.1])
    ensures result.0.isCacheComplete == s.isCacheComplete && result.0.nextElement == s.nextElement
    ensures result.0.parentPos == s.parentPos
  {
    var (advanced, b) := match s.otherIterator
      case OnSource => (s.(sourcePos := s.sourcePos + 1), inner[s.sourcePos])
      case OnCache(i) => (s.(otherIterator := OnCache(i + 1)), s.cachedOtherElements[i]);
    if s.isCacheComplete then (advanced, b)
    else (advanced.(cachedOtherElements := advanced.cachedOtherElements + [b]), b)
  }

  /** The "outer loop" block: take the next outer element when none is current. */
  function PullOuter<A, B>(outer: seq<A>, s: CombState<A, B>): (t: CombState<A, B>)
    requires s.nextElement.Null? ==> s.parentPos < |outer|
    ensures t.nextElement.NonNull?
  {
    if s.nextElement.Null? then s.(nextElement := NonNull(outer[s.parentPos]), parentPos := s.parentPos + 1) else s
  }

  /** One `computeNext` call: the new state and what it returns. */
  function Transition<A, B>(outer: seq<A>, inner: seq<B>, s: CombState<A, B>): (result: (CombState<A, B>, Step<(A, B)>))
    requires WellFormed(outer, inner, s)
    ensures result.1.Value? ==> result.0.nextElement.NonNull? && result.1.value.0 == result.0.nextElement.value
    ensures s.parentPos <= result.0.parentPos <= s.parentPos + 1
    ensures result.0.isCacheComplete <==> s.isCacheComplete || !InnerHasNext(inner, s)
  {
    var s1 := Reinitialize(inner, s);
    if s1.nextElement.Null? && s1.parentPos == |outer| then (s1, End)
    else
      var s2 := PullOuter(outer, s1);
      if InnerHasNext(inner, s2) then
        var (s3, b) := ReadInner(inner, s2);
        (s3, Value((s2.nextElement.value, b)))
      else (s2, End)
  }

  /**
   * What holds between calls, given the pairs `produced` so far. Until the cache
   * is complete the first outer element is paired with the inner source and the
   * cache holds what has been read; afterwards the cache is the whole inner
   * sequence. The pairs produced are the rows of the outer elements before the
   * current one, and the current one's row up to the inner cursor.
   */
  ghost predicate Inv<A, B>(outer: seq<A>, inner: seq<B>, s: CombState<A, B>, produced: seq<(A, B)>)
  {
    && WellFormed(outer, inner, s)
    && (s.isCacheComplete <==> s.otherIterator.OnCache?)
    && (!s.isCacheComplete ==>
          s.cachedOtherElements == inner[..s.sourcePos] && s.parentPos <= 1 && (s.nextElement.Null? ==> s.parentPos == 0))
    && (s.isCacheComplete ==> s.cachedOtherElements == inner && s.sourcePos == |inner|)
    && (s.isCacheComplete && |inner| > 0 ==> s.parentPos >= 1)
    && (s.nextElement.Null? ==> InnerPos(s) == 0 && produced == Product(outer[..s.parentPos], inner))
    && (s.nextElement.NonNull? ==>
          && 1 <= s.parentPos
          && s.nextElement.value == outer[s.parentPos - 1]
          && produced == Product(outer[..s.parentPos - 1], inner) + Row(s.nextElement.value, inner[..InnerPos(s)]))
  }

  lemma InitialInv<A, B>(outer: seq<A>, inner: seq<B>)
    ensures Inv(outer, inner, Initial(), [])
  {
  }

  /** What has been produced is a prefix of the product. */
  lemma InvProducedIsPrefix<A, B>(outer: seq<A>, inner: seq<B>, s: CombState<A, B>, produced: seq<(A, B)>)
    requires Inv(outer, inner, s, produced)
    ensures produced <= Product(outer, inner)
  {
    if s.nextElement.NonNull? {
      var p := s.parentPos;
      ProductSnoc(outer, inner, p - 1);
      assert Row(outer[p - 1], inner[..InnerPos(s)]) <= Row(outer[p - 1], inner);
      ProductPrefix(outer, inner, p);
    } else {
      ProductPrefix(outer, inner, s.parentPos);
    }
  }

  /** Reinitializing keeps the invariant, and it only happens at the end of a row. */
  lemma ReinitializeInv<A, B>(outer: seq<A>, inner: seq<B>, s: CombState<A, B>, produced: seq<(A, B)>)
    requires Inv(outer, inner, s, produced)
    ensures Inv(outer, inner, Reinitialize(inner, s), produced)
    ensures Reinitialize(inner, s).parentPos == s.parentPos
    ensures Reinitialize(inner, s) == s || (Reinitialize(inner, s).isCacheComplete && Reinitialize(inner, s).sourcePos == |inner|)
  {
    if !InnerHasNext(inner, s) && s.nextElement.NonNull? {
      var p := s.parentPos;
      assert InnerPos(s) == |inner|;
      assert inner[..InnerPos(s)] == inner;
      ProductSnoc(outer, inner, p - 1);
    }
  }

  /** Taking the next outer element starts its row. */
  lemma PullOuterInv<A, B>(outer: seq<A>, inner: seq<B>, s: CombState<A, B>, produced: seq<(A, B)>)
    requires Inv(outer, inner, s, produced)
    requires s.nextElement.Null? ==> s.parentPos < |outer|
    ensures Inv(outer, inner, PullOuter(outer, s), produced)
    ensures PullOuter(outer, s).sourcePos == s.sourcePos && PullOuter(outer, s).isCacheComplete == s.isCacheComplete
  {
    if s.nextElement.Null? {
      var t := PullOuter(outer, s);
      assert outer[..t.parentPos - 1] == outer[..s.parentPos];
    }
  }

  /** While a row is in progress, fewer pairs than the whole product have been produced. */
  lemma RowInProgressShort<A, B>(outer: seq<A>, inner: seq<B>, s: CombState<A, B>, produced: seq<(A, B)>)
    requires Inv(outer, inner, s, produced) && s.nextElement.NonNull? && InnerPos(s) < |inner|
    ensures |produced| < |Product(outer, inner)|
  {
    var p := s.parentPos;
    ProductLength(outer, inner);
    ProductLength(outer[..p - 1], inner);
    RowOffsetBelow(p, |outer|, |inner|, InnerPos(s));
  }

  /** Reading the next inner element extends the current row by one pair. */
  lemma ReadInnerInv<A, B>(outer: seq<A>, inner: seq<B>, s: CombState<A, B>, produced: seq<(A, B)>)
    requires Inv(outer, inner, s, produced) && s.nextElement.NonNull? && InnerHasNext(inner, s)
    ensures Inv(outer, inner, ReadInner(inner, s).0, produced + [(s.nextElement.value, ReadInner(inner, s).1)])
    ensures |produced| < |Product(outer, inner)|
  {
    var a, k := s.nextElement.value, InnerPos(s);
    var (t, b) := ReadInner(inner, s);
    RowSnoc(a, inner, k);
    RowInProgressShort(outer, inner, s, produced);
    match s.otherIterator
    case OnSource =>
      assert b == inner[k] && InnerPos(t) == k + 1;
      assert inner[..k + 1] == inner[..k] + [inner[k]];
    case OnCache(i) =>
      assert b == inner[k] && InnerPos(t) == k + 1;
  }

  /** A row that cannot start means the inner sequence is empty, and nothing has been produced. */
  lemma NoInnerInv<A, B>(outer: seq<A>, inner: seq<B>, s: CombState<A, B>, produced: seq<(A, B)>)
    requires Inv(outer, inner, s, produced) && s.nextElement.NonNull? && !InnerHasNext(inner, s)
    requires s.otherIterator == OnCache(0)
    ensures inner == [] && produced == [] && Product(outer, inner) == []
  {
    ProductEmptyInner(outer, inner);
    ProductEmptyInner(outer[..s.parentPos - 1], inner);
  }

  /** One call keeps the invariant, with the returned pair appended to what has been produced. */
  lemma TransitionKeepsInv<A, B>(outer: seq<A>, inner: seq<B>, s: CombState<A, B>, produced: seq<(A, B)>)
    requires Inv(outer, inner, s, produced)
    ensures Inv(outer, inner, Transition(outer, inner, s).0, produced + Emitted(Transition(outer, inner, s).1))
  {
    var s1 := Reinitialize(inner, s);
    ReinitializeInv(outer, inner, s, produced);
    if !(s1.nextElement.Null? && s1.parentPos == |outer|) {
      var s2 := PullOuter(outer, s1);
      PullOuterInv(outer, inner, s1, produced);
      if InnerHasNext(inner, s2) {
        ReadInnerInv(outer, inner, s2, produced);
        assert Transition(outer, inner, s) == (ReadInner(inner, s2).0, Value((s2.nextElement.value, ReadInner(inner, s2).1)));
      } else {
        assert Transition(outer, inner, s) == (s2, End);
      }
    }
  }

  /** A call returns `End` exactly when everything produced so far is the whole product. */
  lemma TransitionEndsExactly<A, B>(outer: seq<A>, inner: seq<B>, s: CombState<A, B>, produced: seq<(A, B)>)
    requires Inv(outer, inner, s, produced)
    ensures Transition(outer, inner, s).1.End? <==> produced == Product(outer, inner)
  {
    var s1 := Reinitialize(inner, s);
    ReinitializeInv(outer, inner, s, produced);
    if s1.nextElement.Null? && s1.parentPos == |outer| {
      assert outer[..s1.parentPos] == outer;
    } else {
      var s2 := PullOuter(outer, s1);
      PullOuterInv(outer, inner, s1, produced);
      if InnerHasNext(inner, s2) {
        ReadInnerInv(outer, inner, s2, produced);
      } else {
        assert s2.otherIterator == OnCache(0);
        NoInnerInv(outer, inner, s2, produced);
      }
    }
  }

  /**
   * The cache-complete flag never goes back, the inner source is read at most
   * one element per call and never once the cache is complete, and the outer
   * source is read at most once per call.
   */
  lemma TransitionMonotone<A, B>(outer: seq<A>, inner: seq<B>, s: CombState<A, B>, produced: seq<(A, B)>)
    requires Inv(outer, inner, s, produced)
    ensures var t := Transition(outer, inner, s).0;
      && (s.isCacheComplete ==> t.isCacheComplete)
      && (t.sourcePos == s.sourcePos || (t.sourcePos == s.sourcePos + 1 && !s.isCacheComplete))
      && s.parentPos <= t.parentPos <= s.parentPos + 1
  {
    ReinitializeInv(outer, inner, s, produced);
  }

  /** The three facts about one call together. */
  lemma TransitionInv<A, B>(outer: seq<A>, inner: seq<B>, s: CombState<A, B>, produced: seq<(A, B)>)
    requires Inv(outer, inner, s, produced)
    ensures var (t, r) := Transition(outer, inner, s);
      && Inv(outer, inner, t, produced + Emitted(r))
      && (r.End? <==> produced == Product(outer, inner))
      && (s.isCacheComplete ==> t.isCacheComplete)
      && (t.sourcePos == s.sourcePos || (t.sourcePos == s.sourcePos + 1 && !s.isCacheComplete))
      && s.parentPos <= t.parentPos <= s.parentPos + 1
  {
    TransitionKeepsInv(outer, inner, s, produced);
    TransitionEndsExactly(outer, inner, s, produced);
    TransitionMonotone(outer, inner, s, produced);
  }

  /** With an empty inner source every call returns `End`, though each one reads an outer element. */
  lemma EmptyInnerYieldsNothing<A, B>(outer: seq<A>, inner: seq<B>, s: CombState<A, B>, produced: seq<(A, B)>)
    requires Inv(outer, inner, s, produced) && inner == []
    ensures Transition(outer, inner, s).1 == End
  {
    ProductEmptyInner(outer, inner);
    TransitionInv(outer, inner, s, produced);
  }

  /** When the outer source is exhausted and no row is in progress, the call returns `End` and reads nothing. */
  lemma ExhaustedOuterEnds<A, B>(outer: seq<A>, inner: seq<B>, s: CombState<A, B>, produced: seq<(A, B)>)
    requires Inv(outer, inner, s, produced)
    requires s.parentPos == |outer| && s.nextElement.Null?
    ensures Transition(outer, inner, s).1 == End
    ensures Transition(outer, inner, s).0.parentPos == s.parentPos
    ensures Transition(outer, inner, s).0.sourcePos == s.sourcePos
  {
  }

  /** At `End` the inner source has been read completely once, unless the outer source was empty. */
  lemma EndReadsInnerOnce<A, B>(outer: seq<A>, inner: seq<B>, s: CombState<A, B>, produced: seq<(A, B)>)
    requires Inv(outer, inner, s, produced)
    requires Transition(outer, inner, s).1 == End
    ensures Transition(outer, inner, s).0.sourcePos == if |outer| == 0 then 0 else |inner|
  {
    TransitionInv(outer, inner, s, produced);
    ReinitializeInv(outer, inner, s, produced);
    if |outer| == 0 {
      assert s.parentPos == 0;
      if s.isCacheComplete {
        assert produced == [];
        ProductEmptyInner(outer, inner);
        ProductLength(outer, inner);
      }
    }
  }

  // ---------------------------------------------------------------------------
  // The iterator
  // ---------------------------------------------------------------------------

  class CombinationIterator<A, B> {
    /** The elements the parent and the other iterator would yield. */
    const parent: seq<A>
    const other: seq<B>
    var parentPos: nat
    var nextElement: Ref<A>
    var isOtherElementsCacheComplete: bool
    var cachedOtherElements: seq<B>
    var otherIterator: Cursor
    var otherSourcePos: nat
    /** The pairs returned so far. */
    ghost var produced: seq<(A, B)>

    function State(): CombState<A, B>
      reads this
    {
      CombState(parentPos, nextElement, otherIterator, otherSourcePos, cachedOtherElements, isOtherElementsCacheComplete)
    }

    ghost predicate Valid()
      reads this
    {
      Inv(parent, other, State(), produced)
    }

    constructor (parent: seq<A>, other: seq<B>)
      ensures Valid() && this.parent == parent && this.other == other
      ensures State() == Initial() && produced == []
    {
      this.parent := parent;
      this.other := other;
      parentPos := 0;
      nextElement := Null;
      isOtherElementsCacheComplete := false;
      cachedOtherElements := [];
      otherIterator := OnSource;
      otherSourcePos := 0;
      produced := [];
    }

    /** `otherIterator.hasNext()` on the fields. */
    function OtherHasNext(): (b: bool)
      reads this
      ensures b == InnerHasNext(other, State())
    {
      match otherIterator
      case OnSource => otherSourcePos < |other|
      case OnCache(i) => i < |cachedOtherElements|
    }

    /** The "reinitialize inner loop" block: replay the cache once `otherIterator` is exhausted. */
    method ReinitializeInnerLoop()
      modifies this`nextElement, this`otherIterator, this`isOtherElementsCacheComplete
      ensures State() == Reinitialize(other, old(State()))
    {
      if !OtherHasNext() {
        nextElement := Null;
        otherIterator := OnCache(0);
        isOtherElementsCacheComplete := true;
      }
    }

    /** The "outer loop" block: take the next parent element when none is current. */
    method NextOuter() returns (exhausted: bool)
      requires parentPos <= |parent|
      modifies this`nextElement, this`parentPos
      ensures exhausted <==> old(nextElement).Null? && old(parentPos) == |parent|
      ensures exhausted ==> State() == old(State())
      ensures !exhausted ==> State() == PullOuter(parent, old(State()))
    {
      exhausted := false;
      if nextElement.Null? {
        if parentPos < |parent| {
          nextElement := NonNull(parent[parentPos]);
          parentPos := parentPos + 1;
        } else {
          exhausted := true;
        }
      }
    }

    /** The "inner loop" block's read: the next element of `otherIterator`, cached unless the cache is complete. */
    method NextInner() returns (nextOtherElement: B)
      requires otherSourcePos <= |other| && InnerHasNext(other, State())
      modifies this`otherIterator, this`otherSourcePos, this`cachedOtherElements
      ensures (State(), nextOtherElement) == ReadInner(other, old(State()))
    {
      match otherIterator {
        case OnSource =>
          nextOtherElement := other[otherSourcePos];
          otherSourcePos := otherSourcePos + 1;
        case OnCache(i) =>
          nextOtherElement := cachedOtherElements[i];
          otherIterator := OnCache(i + 1);
      }
      if !isOtherElementsCacheComplete {
        cachedOtherElements := cachedOtherElements + [nextOtherElement];
      }
    }

    /** `computeNext`, performed in place; it is the `Transition` of the state. */
    method ComputeNext() returns (r: Step<(A, B)>)
      requires Valid()
      modifies this`parentPos, this`nextElement, this`isOtherElementsCacheComplete, this`cachedOtherElements,
        this`otherIterator, this`otherSourcePos, this`produced
      ensures (State(), r) == Transition(parent, other, old(State()))
      ensures produced == old(produced) + Emitted(r)
      ensures Valid()
      ensures r.End? <==> old(produced) == Product(parent, other)
    {
      ghost var s0 := State();
      TransitionInv(parent, other, s0, produced);
      ReinitializeInnerLoop();
      ghost var s1 := State();
      var exhausted := NextOuter();
      if exhausted {
        assert Transition(parent, other, s0) == (s1, End);
        return End;
      }
      ghost var s2 := State();
      if OtherHasNext() {
        var nextOtherElement := NextInner();
        r := Value((nextElement.value, nextOtherElement));
        assert Transition(parent, other, s0) == (State(), r);
        produced := produced + [r.value];
      } else {
        r := End;
        assert Transition(parent, other, s0) == (s2, End);
      }
    }
  }

  /**
   * Drains a `combine(other)` stage: the pairs are the outer-major product, and
   * the inner source has been read through once (not at all when the outer
   * source is empty).
   */
  method Combine<A, B>(outer: seq<A>, inner: seq<B>) returns (pairs: seq<(A, B)>, innerReads: nat)
    ensures pairs == Product(outer, inner)
    ensures innerReads == if |outer| == 0 then 0 else |inner|
  {
    var it := new CombinationIterator(outer, inner);
    pairs := [];
    ghost var before := it.State();
    var r := it.ComputeNext();
    while r.Value?
      invariant it.Valid() && it.parent == outer && it.other == inner
      invariant it.produced == pairs + Emitted(r)
      invariant r.End? ==> pairs == Product(outer, inner)
      invariant Inv(outer, inner, before, pairs) && (it.State(), r) == Transition(outer, inner, before)
      decreases |Product(outer, inner)| - |it.produced| + if r.Value? then 1 else 0
    {
      InvProducedIsPrefix(outer, inner, it.State(), it.produced);
      pairs := pairs + [r.value];
      before := it.State();
      r := it.ComputeNext();
    }
    EndReadsInnerOnce(outer, inner, before, pairs);
    innerReads := it.otherSourcePos;
  }
}
