/**
 * The loops of the parsing engine: each method runs the source's loop over
 * the shared cursor and is proved to compute its combinator exactly.
 */
module Engine {
  import opened Locations
  import opened Results
  import opened Inputs
  import C = Combinators

  /** Tries each alternative in turn at the current cursor and returns the first success. */
  method Or<A>(parsers: seq<C.Parser<A>>, o: nat) returns (r: ParseResult<A>, o': nat)
    ensures (r, o') == C.Or(parsers, o)
  {
    var cursor := o;
    for i := 0 to |parsers|
      invariant C.Or(parsers, o) == C.Or(parsers[i..], cursor)
    {
      assert parsers[i..][1..] == parsers[i + 1..];
      var (result, after) := parsers[i](cursor);
      cursor := after;
      if result.Success? {
        return result, cursor;
      }
    }
    return Failure, cursor;
  }

  /** Runs each parser in order, collecting their results; the first failure fails the whole. */
  method Sequence<T, A>(input: Input<T>, parsers: seq<C.Parser<A>>, o: nat) returns (r: ParseResult<seq<Located<A>>>, o': nat)
    ensures (r, o') == C.Sequence(input, parsers, o)
  {
    var pos := input.CurrentPosition(o);
    var results: seq<Located<A>> := [];
    var cursor := o;
    assert parsers[0..] == parsers;
    assert [] + C.SequenceFrom(parsers, o).1 == C.SequenceFrom(parsers, o).1;
    for i := 0 to |parsers|
      invariant var t := C.SequenceFrom(parsers[i..], cursor);
        C.SequenceFrom(parsers, o) == (t.0, results + t.1, t.2)
    {
      assert parsers[i..][1..] == parsers[i + 1..];
      var (result, after) := parsers[i](cursor);
      ghost var rest := C.SequenceFrom(parsers[i + 1..], after);
      ghost var before := cursor;
      cursor := after;
      if result.Failure? {
        assert C.SequenceFrom(parsers[i..], before) == (false, [], after);
        return Failure, cursor;
      }
      assert C.SequenceFrom(parsers[i..], before) == (rest.0, [result.located] + rest.1, rest.2);
      assert results + ([result.located] + rest.1) == (results + [result.located]) + rest.1;
      results := results + [result.located];
    }
    assert parsers[|parsers|..] == [];
    assert results + [] == results;
    return Success(Located(results, pos)), cursor;
  }

  /** Reads tokens while `pred` accepts them; never fails. */
  method While<T>(input: Input<T>, pred: T -> bool, o: nat) returns (r: ParseResult<seq<Located<T>>>, o': nat)
    ensures (r, o') == C.While(input, pred, o)
  {
    var pos := input.CurrentPosition(o);
    var results: seq<Located<T>> := [];
    var cursor := o;
    assert [] + C.WhileFrom(input, pred, o).0 == C.WhileFrom(input, pred, o).0;
    while true
      invariant var t := C.WhileFrom(input, pred, cursor);
        C.WhileFrom(input, pred, o) == (results + t.0, t.1)
      decreases |input.tokens| - cursor
    {
      var (result, after) := C.TokenIf(input, pred, cursor);
      if result.Failure? {
        assert C.WhileFrom(input, pred, cursor) == ([], after);
        assert results + [] == results;
        o' := after;
        break;
      }
      ghost var rest := C.WhileFrom(input, pred, after);
      assert C.WhileFrom(input, pred, cursor) == ([result.located] + rest.0, rest.1);
      assert results + ([result.located] + rest.0) == (results + [result.located]) + rest.0;
      results := results + [result.located];
      cursor := after;
    }
    r := Success(Located(results, pos));
  }

  /** `While` with the negated predicate. */
  method Until<T>(input: Input<T>, pred: T -> bool, o: nat) returns (r: ParseResult<seq<Located<T>>>, o': nat)
    ensures (r, o') == C.Until(input, pred, o)
  {
    r, o' := While(input, C.Not(pred), o);
  }

  /** `Until` the first token equal to `v`. */
  method UntilEq<T(==)>(input: Input<T>, v: T, o: nat) returns (r: ParseResult<seq<Located<T>>>, o': nat)
    ensures (r, o') == C.UntilEq(input, v, o)
  {
    r, o' := Until(input, C.Equals(v), o);
  }

  /** Applies `parser` until it fails, collecting its successes; never fails. */
  method Many<T, A>(input: Input<T>, parser: C.Parser<A>, o: nat) returns (r: ParseResult<seq<Located<A>>>, o': nat)
    requires C.Progress(parser, |input.tokens|)
    ensures (r, o') == C.Many(input, parser, o)
  {
    var pos := input.CurrentPosition(o);
    var results: seq<Located<A>> := [];
    var cursor := o;
    assert [] + C.ManyFrom(parser, |input.tokens|, o).0 == C.ManyFrom(parser, |input.tokens|, o).0;
    while true
      invariant var t := C.ManyFrom(parser, |input.tokens|, cursor);
        C.ManyFrom(parser, |input.tokens|, o) == (results + t.0, t.1)
      decreases |input.tokens| - cursor
    {
      var (result, after) := parser(cursor);
      if result.Failure? {
        assert C.ManyFrom(parser, |input.tokens|, cursor) == ([], after);
        assert results + [] == results;
        o' := after;
        break;
      }
      ghost var rest := C.ManyFrom(parser, |input.tokens|, after);
      assert C.ManyFrom(parser, |input.tokens|, cursor) == ([result.located] + rest.0, rest.1);
      assert results + ([result.located] + rest.0) == (results + [result.located]) + rest.0;
      results := results + [result.located];
      cursor := after;
    }
    r := Success(Located(results, pos));
  }

  /** Applies a void parser until it fails; always reports success. */
  method ManyVoid<T>(input: Input<T>, parser: C.VoidParser, o: nat) returns (r: VoidResult, o': nat)
    requires C.VoidProgress(parser, |input.tokens|)
    ensures (r, o') == C.ManyVoid(input, parser, o)
  {
    var cursor := o;
    while true
      invariant C.ManyVoidFrom(parser, |input.tokens|, o) == C.ManyVoidFrom(parser, |input.tokens|, cursor)
      decreases |input.tokens| - cursor
    {
      var (result, after) := parser(cursor);
      cursor := after;
      if !result.success {
        break;
      }
    }
    return VoidResult(true), cursor;
  }

  /** Elements separated by `sep`, the separator tried only once an element has been read; never fails. */
  method SepBy<T, A>(input: Input<T>, parser: C.Parser<A>, sep: C.VoidParser, o: nat)
    returns (r: ParseResult<seq<Located<A>>>, o': nat)
    requires C.Progress(C.Round(parser, sep), |input.tokens|)
    ensures (r, o') == C.SepBy(input, parser, sep, o)
  {
    var n := |input.tokens|;
    var pos := input.CurrentPosition(o);
    var results: seq<Located<A>> := [];
    var cursor := o;
    while true
      invariant results == [] ==> cursor == o
      invariant results != [] ==>
        var t := C.SepTail(parser, sep, n, cursor);
        C.SepBy(input, parser, sep, o) == (Success(Located(results + t.0, pos)), t.1)
      decreases if results == [] then 1 else 0, n - cursor
    {
      ghost var start := cursor;
      if |results| > 0 {
        var (separated, afterSep) := sep(cursor);
        if !separated.success {
          assert C.SepTail(parser, sep, n, start) == ([], afterSep);
          assert results + [] == results;
          o' := afterSep;
          break;
        }
        cursor := afterSep;
      }
      var (result, after) := parser(cursor);
      if result.Failure? {
        assert results != [] ==> C.SepTail(parser, sep, n, start) == ([], after);
        assert results + [] == results;
        o' := after;
        break;
      }
      ghost var rest := C.SepTail(parser, sep, n, after);
      if results != [] {
        assert C.Round(parser, sep)(start) == (result, after);
        assert C.SepTail(parser, sep, n, start) == ([result.located] + rest.0, rest.1);
        assert results + ([result.located] + rest.0) == (results + [result.located]) + rest.0;
      } else {
        assert results + [result.located] == [result.located];
        assert C.SepBy(input, parser, sep, o) == (Success(Located([result.located] + rest.0, pos)), rest.1);
      }
      results := results + [result.located];
      cursor := after;
    }
    r := Success(Located(results, pos));
  }
}
