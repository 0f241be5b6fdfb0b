/**
 * `Option<T>`: an explicit-absence value with the two variants `None` and `Some`.
 * The payload of a `Some` may itself be a null reference; in this model that is
 * an `Option<Ref<U>>` whose payload is `Null`.
 */
module Monad {
  import opened JavaLang

  datatype Option<T> = None | Some(value: T) {

    /** `hasValue()`: true exactly on `Some`. */
    predicate HasValue()
    {
      Some?
    }

    /** `get()`: the payload, or an UnsupportedOperationException on `None`. */
    function Get(): (r: Result<T>)
      ensures r.Ok? <==> HasValue()
      ensures r.Throws? ==> r.exception == UnsupportedOperation
      ensures HasValue() ==> r.value == value
    {
      match this
      case None => Throws(UnsupportedOperation)
      case Some(v) => Ok(v)
    }

    /** `getOrElse(value)`: never fails; the payload on `Some`, the alternative on `None`. */
    function GetOrElse(alternative: T): (r: T)
      ensures Get().Ok? ==> r == Get().value
      ensures Get().Throws? ==> r == alternative
    {
      match this
      case None => alternative
      case Some(v) => v
    }

    /** `or(other)`: the receiver when it has a value, `other` otherwise. */
    function Or(other: Option<T>): (r: Option<T>)
      ensures r.HasValue() <==> HasValue() || other.HasValue()
      ensures HasValue() ==> r == this
      ensures !HasValue() ==> r == other
    {
      match this
      case None => other
      case Some(_) => this
    }

    /** `orOption(other)`: the receiver when it has a value, `some(other)` otherwise. */
    function OrOption(other: T): (r: Option<T>)
      ensures r.HasValue()
      ensures r.Get() == Ok(GetOrElse(other))
    {
      match this
      case None => Some(other)
      case Some(_) => this
    }
  }

  /** `Option.none()`: the one shared absent value. */
  function NoneOf<T>(): (r: Option<T>)
    ensures !r.HasValue()
    ensures r.Get() == Throws(UnsupportedOperation)
  {
    None
  }

  /** `Option.some(value)`: always present, even for a null payload. */
  function SomeOf<T>(v: T): (r: Option<T>)
    ensures r.HasValue() && r.Get() == Ok(v)
  {
    Some(v)
  }

  /** `Option.fromNullable(value)`: absent exactly for a null reference. */
  function FromNullable<T>(v: Ref<T>): (r: Option<Ref<T>>)
    ensures r.HasValue() <==> v != Null
    ensures v != Null ==> r == SomeOf(v)
  {
    if v.Null? then NoneOf() else SomeOf(v)
  }

  /**
   * `equals` of the two variants over payloads that may be null: a `Some` compares
   * its payload null-safely (null equals only null; a non-null payload uses the
   * payload's own equality, taken here to be value equality); `None` is one shared
   * instance, so it equals only itself; a `Some` never equals `None`.
   */
  function OptionEquals<T(==)>(self: Option<Ref<T>>, o: Option<Ref<T>>): (r: bool)
    ensures r <==> self == o
  {
    match self
    case None => o.None?
    case Some(mine) =>
      if !o.Some? then false
      else
        var theirs := o.value;
        !(if mine.NonNull? then !(theirs.NonNull? && mine.value == theirs.value) else theirs.NonNull?)
  }

  /** `some(v)` carries `v` back out through both accessors. */
  lemma SomeRoundTrip<T>(v: T, alternative: T)
    ensures SomeOf(v).Get() == Ok(v)
    ensures SomeOf(v).GetOrElse(alternative) == v
    ensures SomeOf(v).Or(NoneOf()) == SomeOf(v)
  {
  }

  /** `none()` is the identity of `or` on both sides, and `or` is associative. */
  lemma OrMonoid<T>(a: Option<T>, b: Option<T>, c: Option<T>)
    ensures NoneOf<T>().Or(a) == a && a.Or(NoneOf()) == a
    ensures a.Or(b).Or(c) == a.Or(b.Or(c))
  {
  }

  /** `orOption(x)` is `or(some(x))`, and `getOrElse` agrees with it. */
  lemma OrOptionIsOrSome<T>(a: Option<T>, x: T)
    ensures a.OrOption(x) == a.Or(SomeOf(x))
    ensures a.OrOption(x).GetOrElse(x) == a.GetOrElse(x)
  {
  }

  /** `fromNullable` inverts the null check: its payload, when there is one, is the original reference. */
  lemma FromNullableGetOrElse<T>(v: Ref<T>)
    ensures FromNullable(v).GetOrElse(Null) == v
  {
  }
}
