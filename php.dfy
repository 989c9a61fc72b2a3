/** The few pieces of PHP semantics the application's decisions depend on. */
module Php {

  /** A PHP value that may be `null` (an unset field, a NULL column). */
  datatype Option<T> = None | Some(value: T)

  /** PHP truthiness of a nullable integer id: `null` and `0` are falsy, every other integer is truthy. */
  predicate Truthy(x: Option<int>)
  {
    x.Some? && x.value != 0
  }

  /** PHP truthiness of a string: `""` and `"0"` are falsy. */
  predicate StringTruthy(s: string)
  {
    s != "" && s != "0"
  }

  /** PHP 8's `$count >= $max` where `$max` may be null: a comparison with null converts
      both sides to bool, and `bool($count) >= false` always holds. */
  predicate AtLeast(count: int, max: Option<int>)
  {
    match max
    case None => true
    case Some(m) => count >= m
  }
}
