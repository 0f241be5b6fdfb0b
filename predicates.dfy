/**
 * The stateless predicate factories: constant predicates, negation, the
 * short-circuit `and`/`or` over a list of predicates, the counting `xor`,
 * and the null-safe string and Option tests.
 */
module Predicates {
  import opened JavaLang
  import opened Monad

  /** The result of evaluating a combinator, with how many predicates were invoked. */
  datatype Evaluation = Evaluation(result: bool, invoked: nat)

  /** `all()`: selects every element. */
  function All<T(!new)>(): (r: T -> bool)
    ensures forall x :: r(x)
  {
    x => true
  }

  /** `none()`: selects no element. */
  function NoneSelected<T(!new)>(): (r: T -> bool)
    ensures forall x :: !r(x)
  {
    x => false
  }

  /** `notNull()`: selects the non-null references. */
  function NotNull<T(!new)>(): (r: Ref<T> -> bool)
    ensures forall x :: r(x) <==> x != Null
  {
    (x: Ref<T>) => x.NonNull?
  }

  /** `not(p)`: the complement of `p`. */
  function Not<T(!new)>(p: T -> bool): (r: T -> bool)
    ensures forall x :: r(x) != p(x)
  {
    x => !p(x)
  }

  /**
   * The loop of `and(ps).invoke(x)`: stops at the first predicate that fails.
   * The result holds iff every predicate holds; the predicates invoked are exactly
   * those up to and including the first failing one (all of them when none fails).
   */
  function AndEvaluation<T>(ps: seq<T -> bool>, x: T): (e: Evaluation)
    ensures e.result <==> forall i :: 0 <= i < |ps| ==> ps[i](x)
    ensures e.invoked <= |ps|
    ensures forall i :: 0 <= i < e.invoked - 1 ==> ps[i](x)
    ensures e.result ==> e.invoked == |ps|
    ensures !e.result ==> 1 <= e.invoked && !ps[e.invoked - 1](x)
  {
    if |ps| == 0 then Evaluation(true, 0)
    else if !ps[0](x) then Evaluation(false, 1)
    else
      var rest := AndEvaluation(ps[1..], x);
      assert forall i :: 1 <= i < |ps| ==> ps[i] == ps[1..][i - 1];
      Evaluation(rest.result, rest.invoked + 1)
  }

  /**
   * The loop of `or(ps).invoke(x)`: stops at the first predicate that holds.
   * The result holds iff some predicate holds; the predicates invoked are exactly
   * those up to and including the first holding one (all of them when none holds).
   */
  function OrEvaluation<T>(ps: seq<T -> bool>, x: T): (e: Evaluation)
    ensures e.result <==> exists i :: 0 <= i < |ps| && ps[i](x)
    ensures e.invoked <= |ps|
    ensures forall i :: 0 <= i < e.invoked - 1 ==> !ps[i](x)
    ensures !e.result ==> e.invoked == |ps|
    ensures e.result ==> 1 <= e.invoked && ps[e.invoked - 1](x)
  {
    if |ps| == 0 then Evaluation(false, 0)
    else if ps[0](x) then Evaluation(true, 1)
    else
      var rest := OrEvaluation(ps[1..], x);
      assert forall i :: 1 <= i < |ps| ==> ps[i] == ps[1..][i - 1];
      Evaluation(rest.result, rest.invoked + 1)
  }

  /** `and(ps)`: an empty list selects everything. */
  function And<T(!new)>(ps: seq<T -> bool>): (r: T -> bool)
    ensures forall x :: r(x) <==> forall i :: 0 <= i < |ps| ==> ps[i](x)
  {
    x => AndEvaluation(ps, x).result
  }

  /** `or(ps)`: an empty list selects nothing. */
  function Or<T(!new)>(ps: seq<T -> bool>): (r: T -> bool)
    ensures forall x :: r(x) <==> exists i :: 0 <= i < |ps| && ps[i](x)
  {
    x => OrEvaluation(ps, x).result
  }

  /** How many of `ps` hold on `x`: the `select(...).count()` inside `xor`, which invokes every predicate. */
  function CountHolding<T>(ps: seq<T -> bool>, x: T): (n: nat)
    ensures n <= |ps|
    ensures n == 0 <==> forall i :: 0 <= i < |ps| ==> !ps[i](x)
  {
    if |ps| == 0 then 0
    else
      assert forall i :: 1 <= i < |ps| ==> ps[i] == ps[1..][i - 1];
      (if ps[0](x) then 1 else 0) + CountHolding(ps[1..], x)
  }

  /** Exactly one predicate holds: some index holds and every other index fails. */
  ghost predicate ExactlyOne<T>(ps: seq<T -> bool>, x: T)
  {
    exists i :: 0 <= i < |ps| && ps[i](x) && forall j :: 0 <= j < |ps| && j != i ==> !ps[j](x)
  }

  /** A single holding predicate, all others failing, gives a count of one. */
  lemma {:induction false} CountOfSingle<T>(ps: seq<T -> bool>, x: T, i: nat)
    requires i < |ps| && ps[i](x)
    requires forall j :: 0 <= j < |ps| && j != i ==> !ps[j](x)
    ensures CountHolding(ps, x) == 1
  {
    var tail := ps[1..];
    assert forall j :: 1 <= j < |ps| ==> ps[j] == tail[j - 1];
    if i == 0 {
      assert forall j :: 0 <= j < |tail| ==> !tail[j](x) by {
        forall j | 0 <= j < |tail| ensures !tail[j](x) { assert !ps[j + 1](x); }
      }
    } else {
      forall j | 0 <= j < |tail| && j != i - 1 ensures !tail[j](x) { assert !ps[j + 1](x); }
      CountOfSingle(tail, x, i - 1);
    }
  }

  /** A count of one names the one holding predicate. */
  lemma {:induction false} SingleOfCount<T>(ps: seq<T -> bool>, x: T) returns (i: nat)
    requires CountHolding(ps, x) == 1
    ensures i < |ps| && ps[i](x)
    ensures forall j :: 0 <= j < |ps| && j != i ==> !ps[j](x)
  {
    var tail := ps[1..];
    assert forall j :: 1 <= j < |ps| ==> ps[j] == tail[j - 1];
    if ps[0](x) {
      assert CountHolding(tail, x) == 0;
      i := 0;
    } else {
      var k := SingleOfCount(tail, x);
      i := k + 1;
    }
  }

  /** A count of one means that exactly one of the predicates holds, and conversely. */
  lemma CountOneIsExactlyOne<T>(ps: seq<T -> bool>, x: T)
    ensures CountHolding(ps, x) == 1 <==> ExactlyOne(ps, x)
  {
    if CountHolding(ps, x) == 1 {
      var i := SingleOfCount(ps, x);
    }
    if ExactlyOne(ps, x) {
      var i :| 0 <= i < |ps| && ps[i](x) && forall j :: 0 <= j < |ps| && j != i ==> !ps[j](x);
      CountOfSingle(ps, x, i);
    }
  }

  /**
   * `xor(ps)`: counts the predicates that hold and compares the count with one,
   * so it holds exactly when one predicate holds (a count, not a parity).
   */
  function Xor<T(!new)>(ps: seq<T -> bool>): (r: T -> bool)
    ensures forall x :: r(x) <==> ExactlyOne(ps, x)
  {
    forall x ensures CountHolding(ps, x) == 1 <==> ExactlyOne(ps, x) {
      CountOneIsExactlyOne(ps, x);
    }
    x => CountHolding(ps, x) == 1
  }

  /** Three predicates that all hold: an odd number hold, yet `xor` rejects, so it is not parity. */
  lemma XorIsNotParity<T(!new)>(x: T)
    ensures !Xor([All<T>(), All<T>(), All<T>()])(x)
  {
    var ps := [All<T>(), All<T>(), All<T>()];
    assert ps[0](x) && ps[1](x);
    if Xor(ps)(x) {
      var i := SingleOfCount(ps, x);
    }
  }

  /** Negation is an involution. */
  lemma NotNot<T(!new)>(p: T -> bool, x: T)
    ensures Not(Not(p))(x) == p(x)
  {
  }

  /** De Morgan over lists: the complement of `and(ps)` is `or` of the complements. */
  lemma {:induction false} NotAndIsOrNot<T(!new)>(ps: seq<T -> bool>, x: T)
    ensures Not(And(ps))(x) == Or(seq(|ps|, i requires 0 <= i < |ps| => Not(ps[i])))(x)
  {
    var negated := seq(|ps|, i requires 0 <= i < |ps| => Not(ps[i]));
    if (exists i :: 0 <= i < |ps| && !ps[i](x)) {
      var i :| 0 <= i < |ps| && !ps[i](x);
      assert negated[i](x);
    }
  }

  /** `notEmptyString()`: false for null and for "", true otherwise. */
  function NotEmptyString(): (r: Ref<string> -> bool)
    ensures forall s :: r(s) <==> s != Null && s != NonNull("")
  {
    (s: Ref<string>) => s.NonNull? && |s.value| != 0
  }

  /**
   * Character-by-character comparison of `prefix` against `s` from `offset` on, the
   * test inside `String.startsWith(prefix, offset)`.
   */
  function MatchesFrom(s: string, offset: nat, prefix: string, j: nat): (r: bool)
    requires j <= |prefix| && offset + |prefix| <= |s|
    ensures r <==> s[offset + j..offset + |prefix|] == prefix[j..]
    decreases |prefix| - j
  {
    if j == |prefix| then true
    else if s[offset + j] != prefix[j] then false
    else
      var rest := MatchesFrom(s, offset, prefix, j + 1);
      assert s[offset + j..offset + |prefix|] == [s[offset + j]] + s[offset + j + 1..offset + |prefix|];
      assert prefix[j..] == [prefix[j]] + prefix[j + 1..];
      rest
  }

  /** `String.startsWith(prefix, offset)`: false when `prefix` does not fit at `offset`. */
  function StartsWithAt(s: string, prefix: string, offset: int): (r: bool)
    ensures r <==> 0 <= offset && offset + |prefix| <= |s| && s[offset..offset + |prefix|] == prefix
  {
    if offset < 0 || offset > |s| - |prefix| then false
    else MatchesFrom(s, offset, prefix, 0)
  }

  /** `stringStartingWith(prefix)`: false for null, otherwise whether `prefix` is a prefix of the string. */
  function StringStartingWith(prefix: string): (r: Ref<string> -> bool)
    ensures forall s :: r(s) <==> s.NonNull? && prefix <= s.value
  {
    (s: Ref<string>) => s.NonNull? && StartsWithAt(s.value, prefix, 0)
  }

  /** `stringEndingWith(suffix)`: false for null, otherwise whether `suffix` ends the string; `endsWith` is `startsWith` at `length - suffix.length`. */
  function StringEndingWith(suffix: string): (r: Ref<string> -> bool)
    ensures forall s :: r(s) <==> s.NonNull? && |suffix| <= |s.value| && s.value[|s.value| - |suffix|..] == suffix
  {
    (s: Ref<string>) => s.NonNull? && StartsWithAt(s.value, suffix, |s.value| - |suffix|)
  }

  /** `ifHasValue()`: selects the options that hold a value. */
  function IfHasValue<T(!new)>(): (r: Option<T> -> bool)
    ensures forall o :: r(o) <==> o.Get().Ok?
  {
    (o: Option<T>) => o.HasValue()
  }

  /** On `fromNullable` results, `ifHasValue` and `notNull` agree. */
  lemma IfHasValueOfFromNullable<T(!new)>(v: Ref<T>)
    ensures IfHasValue()(FromNullable(v)) == NotNull()(v)
  {
  }
}
