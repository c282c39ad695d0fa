/** The token stream a parser reads, as the parsers observe it. */
module Inputs {
  import opened Locations

  /**
   * Every token with the position the stream reports for it, and the position
   * reported once all of them are consumed. A cursor over it is an offset:
   * re-reading from an earlier offset observes the same tokens again.
   */
  datatype Input<T> = Input(tokens: seq<Located<T>>, end: Position) {

    /** No token remains at `offset`. */
    predicate EndOfInput(offset: nat) {
      offset >= |tokens|
    }

    /** The position of the next unread token, or the end position. */
    function CurrentPosition(offset: nat): Position {
      if offset < |tokens| then tokens[offset].position else end
    }

    /** The next token, without consuming it. */
    function PeekToken(offset: nat): (t: Located<T>)
      requires !EndOfInput(offset)
      ensures t.position == CurrentPosition(offset)
    {
      tokens[offset]
    }

    /** The next token and the offset just past it. */
    function NextToken(offset: nat): (r: (Located<T>, nat))
      requires !EndOfInput(offset)
      ensures r.0 == PeekToken(offset)
      ensures r.1 == offset + 1
    {
      (tokens[offset], offset + 1)
    }
  }
}
