/**
 * `skipWhile(predicate)`: a pipeline stage that drops the leading elements of its
 * parent iterator that satisfy the predicate and passes on everything after them.
 */
module SkipWhile {
  import opened Iteration

  /** How many leading elements of `s` satisfy `p`. */
  function Skipped<T>(p: T -> bool, s: seq<T>): (k: nat)
    ensures k <= |s|
    ensures forall i :: 0 <= i < k ==> p(s[i])
    ensures k < |s| ==> !p(s[k])
  {
    if s == [] || !p(s[0]) then 0 else assert forall i :: 1 <= i < |s| ==> s[i] == s[1..][i - 1]; 1 + Skipped(p, s[1..])
  }

  /** The reference definition: drop elements while `p` holds, then keep the rest. */
  function DropWhile<T>(p: T -> bool, s: seq<T>): (r: seq<T>)
  {
    if s == [] then [] else if p(s[0]) then DropWhile(p, s[1..]) else s
  }

  /** `DropWhile` leaves the suffix after the leading run of `p`-elements. */
  lemma {:induction false} DropWhileIsSuffix<T>(p: T -> bool, s: seq<T>)
    ensures DropWhile(p, s) == s[Skipped(p, s)..]
  {
    if s != [] && p(s[0]) {
      DropWhileIsSuffix(p, s[1..]);
      assert s[1..][Skipped(p, s[1..])..] == s[1 + Skipped(p, s[1..])..];
    }
  }

  /** Exactly the elements after the leading run survive, and the first survivor fails `p`. */
  lemma DropWhileSpec<T>(p: T -> bool, s: seq<T>)
    ensures |DropWhile(p, s)| <= |s|
    ensures DropWhile(p, s) == s[|s| - |DropWhile(p, s)|..]
    ensures forall i :: 0 <= i < |s| - |DropWhile(p, s)| ==> p(s[i])
    ensures DropWhile(p, s) != [] ==> !p(DropWhile(p, s)[0])
  {
    DropWhileIsSuffix(p, s);
  }

  class SkipWhileIterator<T> {
    /** The elements the parent iterator would yield, and how many it has yielded. */
    const parent: seq<T>
    var parentPos: nat
    var isSkippingStopped: bool
    const pred: T -> bool
    /** What this stage has yielded so far. */
    ghost var produced: seq<T>
    /** How many times the predicate has been invoked. */
    ghost var invocations: nat

    /**
     * Until skipping stops, only leading `pred`-elements have been consumed;
     * afterwards everything from the first failing element on has been yielded.
     * Every consumed element was given to the predicate.
     */
    ghost predicate Valid()
      reads this
    {
      && parentPos <= |parent|
      && invocations == parentPos
      && (!isSkippingStopped ==> parentPos <= Skipped(pred, parent) && produced == [])
      && (isSkippingStopped ==>
            Skipped(pred, parent) < parentPos && produced == parent[Skipped(pred, parent)..parentPos])
    }

    constructor (parent: seq<T>, pred: T -> bool)
      ensures Valid()
      ensures this.parent == parent && this.pred == pred
      ensures parentPos == 0 && !isSkippingStopped && produced == []
    {
      this.parent := parent;
      this.pred := pred;
      parentPos := 0;
      isSkippingStopped := false;
      produced := [];
      invocations := 0;
    }

    /**
     * `computeNext`: pull from the parent until an element fails the predicate or
     * skipping has already stopped. The predicate is invoked on every pulled
     * element, also after skipping has stopped.
     */
    method ComputeNext() returns (r: Step<T>)
      requires Valid()
      modifies this`parentPos, this`isSkippingStopped, this`produced, this`invocations
      ensures Valid()
      ensures isSkippingStopped == (old(isSkippingStopped) || r.Value?)
      ensures produced == old(produced) + Emitted(r)
      ensures r.Value? ==> parentPos > old(parentPos) && r.value == parent[parentPos - 1]
      ensures r.Value? ==> old(isSkippingStopped) || !pred(r.value)
      ensures old(isSkippingStopped) ==> (r.Value? <==> old(parentPos) < |parent|)
      ensures old(isSkippingStopped) && r.Value? ==> parentPos == old(parentPos) + 1
      ensures r.End? ==> parentPos == |parent| && produced == DropWhile(pred, parent)
    {
      ghost var k := Skipped(pred, parent);
      while parentPos < |parent|
        invariant Valid()
        invariant old(parentPos) <= parentPos
        invariant isSkippingStopped == old(isSkippingStopped) && produced == old(produced)
        invariant old(isSkippingStopped) ==> parentPos == old(parentPos)
        decreases |parent| - parentPos
      {
        var next := parent[parentPos];
        parentPos := parentPos + 1;
        var holds := pred(next);
        invocations := invocations + 1;
        if !holds || isSkippingStopped {
          if !isSkippingStopped {
            assert parentPos - 1 == k;
          }
          isSkippingStopped := true;
          produced := produced + [next];
          assert produced == parent[k..parentPos];
          return Value(next);
        }
      }
      r := End;
      DropWhileIsSuffix(pred, parent);
    }
  }

  /** Drains a `skipWhile(pred)` stage over `items`: the output is `DropWhile(pred, items)`. */
  method SkipWhileAll<T>(items: seq<T>, pred: T -> bool) returns (out: seq<T>)
    ensures out == DropWhile(pred, items)
  {
    var it := new SkipWhileIterator(items, pred);
    out := [];
    var r := it.ComputeNext();
    while r.Value?
      invariant it.Valid() && it.parent == items && it.pred == pred
      invariant it.produced == out + Emitted(r)
      invariant r.End? ==> it.produced == DropWhile(pred, items)
      decreases |items| - it.parentPos + if r.Value? then 1 else 0
    {
      out := out + [r.value];
      r := it.ComputeNext();
    }
  }

  /** Skipping while `x < 3` over `[1, 2, 3, 4, 1]` keeps `[3, 4, 1]`: later small elements stay. */
  lemma SkipWhileExample()
    ensures DropWhile((x: int) => x < 3, [1, 2, 3, 4, 1]) == [3, 4, 1]
  {
  }
}
