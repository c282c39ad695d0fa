/** Positions in the input and values tagged with the position where they start. */
module Locations {

  /** A line/column coordinate; lines count from 1, columns from 0. */
  datatype Position = Position(line: int, column: int)

  /** A value together with the position at which it started in the input. */
  datatype Located<+T> = Located(value: T, position: Position) {

    /** Transforms the payload and keeps the original position. */
    function Map<B>(f: T -> B): (r: Located<B>)
      ensures r.position == position
      ensures r.value == f(value)
    {
      Located(f(value), position)
    }
  }

  /** Mapping the identity changes nothing. */
  lemma MapIdentity<T>(l: Located<T>)
    ensures l.Map(x => x) == l
  {
  }

  /** Mapping twice is mapping the composition once. */
  lemma MapComposition<T, U, V>(l: Located<T>, f: T -> U, g: U -> V)
    ensures l.Map(f).Map(g) == l.Map(x => g(f(x)))
  {
  }
}
