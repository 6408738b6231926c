/** An immutable pair of two values of the same type. */
module Util {
  import opened Wrappers

  /** Why `ToSet` fails: the set factory rejects a duplicate element. */
  datatype SetError = DuplicateElement

  datatype Vector2<T(==)> = Vector2(first: T, second: T) {

    function Reversed(): Vector2<T> {
      Vector2(second, first)
    }

    /** `first` unless `second` compares strictly smaller. */
    function Min(compare: (T, T) -> int): T {
      if compare(first, second) <= 0 then first else second
    }

    /** `first` unless `second` compares strictly greater. */
    function Max(compare: (T, T) -> int): T {
      if compare(first, second) >= 0 then first else second
    }

    /** The pair itself when `first` is the minimum, otherwise the reversed pair. */
    function Sorted(compare: (T, T) -> int): Vector2<T>
    {
      if Min(compare) == first then this else Reversed()
    }

    function Reduce(identity: T, accumulator: (T, T) -> T): T {
      accumulator(accumulator(identity, first), second)
    }

    function Reduce2(accumulator: (T, T) -> T): T {
      accumulator(first, second)
    }

    predicate AnyMatch(p: T -> bool) {
      p(first) || p(second)
    }

    predicate AllMatch(p: T -> bool) {
      p(first) && p(second)
    }

    predicate NoneMatch(p: T -> bool) {
      !AnyMatch(p)
    }

    function Map<U(==)>(mapper: T -> U): Vector2<U> {
      Vector2(mapper(first), mapper(second))
    }

    function ToList(): seq<T> {
      [first, second]
    }

    /** The two-element set; the factory throws when both components are equal. */
    function ToSet(): Result<set<T>, SetError>
    {
      if first == second then Failure(DuplicateElement) else Success({first, second})
    }
  }

  /** Reversing twice gives back the pair, and reversal swaps the components. */
  lemma ReversedTwice<T>(v: Vector2<T>)
    ensures v.Reversed().Reversed() == v
    ensures v.Reversed().ToList() == [v.second, v.first]
  {
  }

  /**
   * On a tie both `Min` and `Max` return `first`.  Otherwise, for a comparator
   * that is antisymmetric on the two components, `Min` is the strictly smaller
   * and `Max` the strictly greater component.
   */
  lemma MinMaxSplit<T>(v: Vector2<T>, compare: (T, T) -> int)
    requires compare(v.first, v.second) > 0 <==> compare(v.second, v.first) < 0
    ensures compare(v.first, v.second) == 0 ==> v.Min(compare) == v.first && v.Max(compare) == v.first
    ensures compare(v.first, v.second) != 0 ==>
              {v.Min(compare), v.Max(compare)} == {v.first, v.second} && compare(v.Min(compare), v.Max(compare)) < 0
  {
  }

  /**
   * `Sorted` keeps the two components and puts the minimum first, so the result
   * is in order for a comparator that is reflexive and antisymmetric on them.
   */
  lemma SortedOrdered<T>(v: Vector2<T>, compare: (T, T) -> int)
    requires compare(v.first, v.first) == 0 && compare(v.second, v.second) == 0
    requires compare(v.first, v.second) > 0 <==> compare(v.second, v.first) < 0
    ensures v.Sorted(compare) == v || v.Sorted(compare) == v.Reversed()
    ensures v.Sorted(compare).first == v.Min(compare)
    ensures compare(v.Sorted(compare).first, v.Sorted(compare).second) <= 0
  {
  }

  /** With a left identity the seeded reduction equals the unseeded one. */
  lemma ReduceWithIdentity<T>(v: Vector2<T>, identity: T, accumulator: (T, T) -> T)
    requires accumulator(identity, v.first) == v.first
    ensures v.Reduce(identity, accumulator) == v.Reduce2(accumulator)
  {
  }

  /** `NoneMatch` holds exactly when the negated predicate holds of both components. */
  lemma MatchDuality<T>(v: Vector2<T>, p: T -> bool)
    ensures v.NoneMatch(p) <==> v.AllMatch(x => !p(x))
    ensures v.AnyMatch(p) <==> !v.AllMatch(x => !p(x))
  {
  }

  /** Mapping is componentwise: it commutes with reversal and with listing. */
  lemma MapComponentwise<T, U>(v: Vector2<T>, mapper: T -> U)
    ensures v.Map(mapper).Reversed() == v.Reversed().Map(mapper)
    ensures v.Map(mapper).ToList() == [mapper(v.first), mapper(v.second)]
  {
  }

  /** `ToSet` succeeds exactly for two different components, with a two-element set of the listed values. */
  lemma ToSetContents<T>(v: Vector2<T>)
    ensures v.ToSet().Success? <==> v.first != v.second
    ensures v.ToSet().Success? ==> |v.ToSet().value| == 2 && v.ToSet().value == set x | x in v.ToList()
  {
  }
}
