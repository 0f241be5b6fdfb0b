/**
 * `take(count)`: a pipeline stage that passes on at most `count` elements of its
 * parent iterator. The parent is modelled as a finite sequence with a cursor;
 * `long` is modelled as an unbounded integer.
 */
module Take {
  import opened Iteration

  /** The first `count` elements of `s`, or all of `s` when it is shorter; nothing when `count <= 0`. */
  function Taken<T>(count: int, s: seq<T>): (r: seq<T>)
    ensures |r| <= |s|
    ensures count <= 0 ==> r == []
  {
    if count <= 0 || s == [] then [] else [s[0]] + Taken(count - 1, s[1..])
  }

  function Clamp(count: int, length: nat): (n: nat)
    ensures n <= length
    ensures count <= 0 ==> n == 0
    ensures 0 <= count <= length ==> n == count
    ensures count >= length ==> n == length
  {
    if count <= 0 then 0 else if count <= length then count else length
  }

  /** `Taken` is the prefix of length `min(max(count, 0), |s|)`. */
  lemma {:induction false} TakenIsPrefix<T>(count: int, s: seq<T>)
    ensures Taken(count, s) == s[..Clamp(count, |s|)]
  {
    if count <= 0 || s == [] {
    } else {
      TakenIsPrefix(count - 1, s[1..]);
      assert s[..Clamp(count, |s|)] == [s[0]] + s[1..][..Clamp(count - 1, |s| - 1)];
    }
  }

  /** Taking from a prefix of the source takes a prefix of what the whole source gives. */
  lemma TakenMonotone<T>(count: int, s: seq<T>, t: seq<T>)
    requires s <= t
    ensures Taken(count, s) <= Taken(count, t)
  {
    TakenIsPrefix(count, s);
    TakenIsPrefix(count, t);
  }

  class TakeIterator<T> {
    /** The elements the parent iterator would yield, and how many it has yielded. */
    const parent: seq<T>
    var parentPos: nat
    /** The source's `remaining` counter. */
    var remaining: int
    /** The `count` the stage was built with. */
    ghost const count: int
    /** What this stage has yielded so far. */
    ghost var produced: seq<T>

    /**
     * While `remaining` is positive it is `count` less the elements taken; once
     * it has reached zero, exactly `max(count, 0)` elements have been taken.
     */
    ghost predicate Valid()
      reads this
    {
      && parentPos <= |parent|
      && produced == parent[..parentPos]
      && (remaining > 0 ==> remaining + parentPos == count)
      && (remaining <= 0 ==> parentPos == if count > 0 then count else 0)
    }

    constructor (parent: seq<T>, count: int)
      ensures Valid()
      ensures this.parent == parent && this.count == count
      ensures parentPos == 0 && remaining == count && produced == []
    {
      this.parent := parent;
      this.count := count;
      parentPos := 0;
      remaining := count;
      produced := [];
    }

    /**
     * `computeNext`: `remaining--` is evaluated only when the parent has a next
     * element (the `&&` short-circuits), and then whatever its old value was.
     */
    method ComputeNext() returns (r: Step<T>)
      requires Valid()
      modifies this`parentPos, this`remaining, this`produced
      ensures Valid()
      ensures r.Value? <==> old(parentPos) < |parent| && old(remaining) > 0
      ensures r.Value? ==> r.value == parent[old(parentPos)] && parentPos == old(parentPos) + 1
      ensures r.End? ==> parentPos == old(parentPos)
      ensures remaining == if old(parentPos) < |parent| then old(remaining) - 1 else old(remaining)
      ensures produced == old(produced) + Emitted(r)
      ensures r.End? ==> produced == Taken(count, parent)
    {
      if parentPos < |parent| {
        var wasPositive := remaining > 0;
        remaining := remaining - 1;
        if wasPositive {
          r := Value(parent[parentPos]);
          parentPos := parentPos + 1;
          produced := produced + [r.value];
          assert produced == parent[..parentPos];
          TakenIsPrefix(count, parent);
          return;
        }
      }
      r := End;
      TakenIsPrefix(count, parent);
    }
  }

  /** Drains a `take(count)` stage over `items`: the output is `Taken(count, items)`. */
  method TakeAll<T>(items: seq<T>, count: int) returns (out: seq<T>)
    ensures out == Taken(count, items)
  {
    var it := new TakeIterator(items, count);
    out := [];
    var r := it.ComputeNext();
    while r.Value?
      invariant it.Valid() && it.parent == items && it.count == count
      invariant it.produced == out + Emitted(r)
      invariant r.End? ==> it.produced == Taken(count, items)
      decreases |items| - it.parentPos + if r.Value? then 1 else 0
    {
      out := out + [r.value];
      r := it.ComputeNext();
    }
  }

  /** Examples: three of five elements, a zero or negative count, and a count above the length. */
  lemma TakeExample()
    ensures Taken(3, [1, 2, 3, 4, 5]) == [1, 2, 3]
    ensures Taken(0, [1, 2]) == [] && Taken(-4, [1, 2]) == []
    ensures Taken(9, [1, 2]) == [1, 2]
  {
    TakenIsPrefix(3, [1, 2, 3, 4, 5]);
    TakenIsPrefix(9, [1, 2]);
  }
}
