/**
 * The single-step production rule every pipeline stage implements: one call of
 * `computeNext` either yields the next element or signals the end of the sequence.
 */
module Iteration {

  /** The result of one `computeNext` call: `End` is the source's `computationEnd()` marker. */
  datatype Step<T> = End | Value(value: T)

  /** What one step adds to the output produced so far. */
  function Emitted<T>(r: Step<T>): (out: seq<T>)
    ensures |out| == if r.Value? then 1 else 0
    ensures r.Value? ==> out[0] == r.value
  {
    match r
    case End => []
    case Value(v) => [v]
  }
}
