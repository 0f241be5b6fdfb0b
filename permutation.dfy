/**
 * `PermutationIterator`: a second class with the same fields (the cache flag is
 * named `isCacheComplete`) and the same `computeNext` as `CombinationIterator`.
 * Its `ComputeNext` is specified by the same `Transition`, so the two are one
 * machine and everything proved about `Transition` holds for both.
 */
module Permutation {
  import opened JavaLang
  import opened Iteration
  import opened Combination

  class PermutationIterator<A, B> {
    /** The elements the parent and the other iterator would yield. */
    const parent: seq<A>
    const other: seq<B>
    var parentPos: nat
    var nextElement: Ref<A>
    var isCacheComplete: bool
    var cachedOtherElements: seq<B>
    var otherIterator: Cursor
    var otherSourcePos: nat
    /** The pairs returned so far. */
    ghost var produced: seq<(A, B)>

    function State(): CombState<A, B>
      reads this
    {
      CombState(parentPos, nextElement, otherIterator, otherSourcePos, cachedOtherElements, isCacheComplete)
    }

    ghost predicate Valid()
      reads this
    {
      Inv(parent, other, State(), produced)
    }

    constructor (parent: seq<A>, other: seq<B>)
      ensures Valid() && this.parent == parent && this.other == other
      ensures State() == Initial() && produced == []
    {
      this.parent := parent;
      this.other := other;
      parentPos := 0;
      nextElement := Null;
      isCacheComplete := false;
      cachedOtherElements := [];
      otherIterator := OnSource;
      otherSourcePos := 0;
      produced := [];
    }

    /** `otherIterator.hasNext()` on the fields. */
    function OtherHasNext(): (b: bool)
      reads this
      ensures b == InnerHasNext(other, State())
    {
      match otherIterator
      case OnSource => otherSourcePos < |other|
      case OnCache(i) => i < |cachedOtherElements|
    }

    /** The "reinitialize inner loop" block: replay the cache once `otherIterator` is exhausted. */
    method ReinitializeInnerLoop()
      modifies this`nextElement, this`otherIterator, this`isCacheComplete
      ensures State() == Reinitialize(other, old(State()))
    {
      if !OtherHasNext() {
        nextElement := Null;
        otherIterator := OnCache(0);
        isCacheComplete := true;
      }
    }

    /** The "outer loop" block: take the next parent element when none is current. */
    method NextOuter() returns (exhausted: bool)
      requires parentPos <= |parent|
      modifies this`nextElement, this`parentPos
      ensures exhausted <==> old(nextElement).Null? && old(parentPos) == |parent|
      ensures exhausted ==> State() == old(State())
      ensures !exhausted ==> State() == PullOuter(parent, old(State()))
    {
      exhausted := false;
      if nextElement.Null? {
        if parentPos < |parent| {
          nextElement := NonNull(parent[parentPos]);
          parentPos := parentPos + 1;
        } else {
          exhausted := true;
        }
      }
    }

    /** The "inner loop" block's read: the next element of `otherIterator`, cached unless the cache is complete. */
    method NextInner() returns (nextOtherElement: B)
      requires otherSourcePos <= |other| && InnerHasNext(other, State())
      modifies this`otherIterator, this`otherSourcePos, this`cachedOtherElements
      ensures (State(), nextOtherElement) == ReadInner(other, old(State()))
    {
      match otherIterator {
        case OnSource =>
          nextOtherElement := other[otherSourcePos];
          otherSourcePos := otherSourcePos + 1;
        case OnCache(i) =>
          nextOtherElement := cachedOtherElements[i];
          otherIterator := OnCache(i + 1);
      }
      if !isCacheComplete {
        cachedOtherElements := cachedOtherElements + [nextOtherElement];
      }
    }

    /** `computeNext`, performed in place; it is the `Transition` of the state. */
    method ComputeNext() returns (r: Step<(A, B)>)
      requires Valid()
      modifies this`parentPos, this`nextElement, this`isCacheComplete, this`cachedOtherElements,
        this`otherIterator, this`otherSourcePos, this`produced
      ensures (State(), r) == Transition(parent, other, old(State()))
      ensures produced == old(produced) + Emitted(r)
      ensures Valid()
      ensures r.End? <==> old(produced) == Product(parent, other)
    {
      ghost var s0 := State();
      TransitionInv(parent, other, s0, produced);
      ReinitializeInnerLoop();
      ghost var s1 := State();
      var exhausted := NextOuter();
      if exhausted {
        assert Transition(parent, other, s0) == (s1, End);
        return End;
      }
      ghost var s2 := State();
      if OtherHasNext() {
        var nextOtherElement := NextInner();
        r := Value((nextElement.value, nextOtherElement));
        assert Transition(parent, other, s0) == (State(), r);
        produced := produced + [r.value];
      } else {
        r := End;
        assert Transition(parent, other, s0) == (s2, End);
      }
    }
  }

  /**
   * Drains a `PermutationIterator`: the pairs are the outer-major product, and
   * the inner source has been read through once (not at all when the outer
   * source is empty).
   */
  method Permute<A, B>(outer: seq<A>, inner: seq<B>) returns (pairs: seq<(A, B)>, innerReads: nat)
    ensures pairs == Product(outer, inner)
    ensures innerReads == if |outer| == 0 then 0 else |inner|
  {
    var it := new PermutationIterator(outer, inner);
    pairs := [];
    ghost var before := it.State();
    var r := it.ComputeNext();
    while r.Value?
      invariant it.Valid() && it.parent == outer && it.other == inner
      invariant it.produced == pairs + Emitted(r)
      invariant r.End? ==> pairs == Product(outer, inner)
      invariant Inv(outer, inner, before, pairs) && (it.State(), r) == Transition(outer, inner, before)
      decreases |Product(outer, inner)| - |it.produced| + if r.Value? then 1 else 0
    {
      InvProducedIsPrefix(outer, inner, it.State(), it.produced);
      pairs := pairs + [r.value];
      before := it.State();
      r := it.ComputeNext();
    }
    EndReadsInnerOnce(outer, inner, before, pairs);
    innerReads := it.otherSourcePos;
  }
}
