/**
 * The combinators of the parsing engine as functions over a cursor offset.
 * A parser runs at an offset of a fixed input and yields its result together
 * with the offset it leaves the shared cursor at; this is how composed parsers
 * are built and how the loops of the engine are specified.
 */
module Combinators {
  import opened Locations
  import opened Results
  import opened Inputs

  /** A parser producing a located `A`. */
  type Parser<A> = nat -> (ParseResult<A>, nat)

  /** A parser that only reports success or failure. */
  type VoidParser = nat -> (VoidResult, nat)

  /** A value parser seen as a void parser: the same step, with only its flag kept. */
  function Void<A>(p: Parser<A>): VoidParser
  {
    o => (p(o).0.AsVoid(), p(o).1)
  }

  // ---------------------------------------------------------------- Try

  /**
   * Try as written: a restore point is taken and disposed of but never used,
   * so a failing parser keeps whatever it consumed.
   */
  function Try<A>(p: Parser<A>, o: nat): (r: (ParseResult<A>, nat))
    ensures r == p(o)
  {
    var (result, after) := p(o);
    if result.Success? then (result, after) else (Failure, after)
  }

  /** Try as its documentation describes it: a failure rolls the cursor back. */
  function TryRestoring<A>(p: Parser<A>, o: nat): (r: (ParseResult<A>, nat))
    ensures r.0 == p(o).0
    ensures r.0.Success? ==> r.1 == p(o).1
    ensures r.0.Failure? ==> r.1 == o
  {
    var saved := o;
    var (result, after) := p(o);
    if result.Success? then (result, after) else (Failure, saved)
  }

  // ---------------------------------------------------------------- Token and Peek

  /** Consumes and returns the next token; fails at end of input. */
  function Token<T>(input: Input<T>, o: nat): (r: (ParseResult<T>, nat))
    ensures r.0.Success? <==> !input.EndOfInput(o)
    ensures r.0.Failure? ==> r.1 == o
    ensures r.0.Success? ==> r.1 == o + 1 && r.0.located == input.tokens[o]
    ensures r.0.Success? ==> r.0.located.position == input.CurrentPosition(o)
  {
    if input.EndOfInput(o) then (Failure, o)
    else
      var (t, after) := input.NextToken(o);
      (Success(t), after)
  }

  /** Consumes the next token if the predicate accepts it; a rejected token stays unread. */
  function TokenIf<T>(input: Input<T>, pred: T -> bool, o: nat): (r: (ParseResult<T>, nat))
    ensures r.0.Success? <==> !input.EndOfInput(o) && pred(input.tokens[o].value)
    ensures r.0.Failure? ==> r.1 == o
    ensures r.0.Success? ==> r.1 == o + 1 && r.0.located == input.tokens[o]
    ensures r.0.Success? ==> r.0.located.position == input.CurrentPosition(o)
  {
    if input.EndOfInput(o) then (Failure, o)
    else if !pred(input.PeekToken(o).value) then (Failure, o)
    else
      var (t, after) := input.NextToken(o);
      (Success(t), after)
  }

  /** The predicate "equals `v`". */
  function Equals<T(==)>(v: T): T -> bool
  {
    x => x == v
  }

  /** The negation of a predicate. */
  function Not<T>(pred: T -> bool): T -> bool
  {
    x => !pred(x)
  }

  /** Consumes the next token if it equals `v`. */
  function TokenEq<T(==)>(input: Input<T>, v: T, o: nat): (r: (ParseResult<T>, nat))
    ensures r.0.Success? <==> !input.EndOfInput(o) && input.tokens[o].value == v
    ensures r.0.Failure? ==> r.1 == o
    ensures r.0.Success? ==> r.1 == o + 1 && r.0.located == input.tokens[o]
  {
    TokenIf(input, Equals(v), o)
  }

  /** Returns the next token without consuming it; fails at end of input. */
  function Peek<T>(input: Input<T>, o: nat): (r: (ParseResult<T>, nat))
    ensures r.1 == o
    ensures r.0.Success? <==> !input.EndOfInput(o)
    ensures r.0.Success? ==> r.0.located == input.tokens[o]
    ensures r.0.Success? ==> r.0.located == Token(input, o).0.located
  {
    if input.EndOfInput(o) then (Failure, o) else (Success(input.PeekToken(o)), o)
  }

  // ---------------------------------------------------------------- running a list of parsers

  /**
   * The offsets a list of parsers runs at when each starts where the previous
   * one stopped: `o` first, then the offset each parser leaves behind.
   */
  function Offsets<A>(ps: seq<Parser<A>>, o: nat): (offs: seq<nat>)
    ensures |offs| == |ps| + 1 && offs[0] == o
    ensures forall k :: 0 <= k < |ps| ==> offs[k + 1] == ps[k](offs[k]).1
    decreases |ps|
  {
    if ps == [] then [o]
    else
      var rest := Offsets(ps[1..], ps[0](o).1);
      assert forall k :: 1 <= k < |ps| ==> rest[k] == ps[1..][k - 1](rest[k - 1]).1;
      [o] + rest
  }

  /** What the `k`-th parser yields when run at its place in that chain. */
  function Attempt<A>(ps: seq<Parser<A>>, o: nat, k: nat): (ParseResult<A>, nat)
    requires k < |ps|
  {
    ps[k](Offsets(ps, o)[k])
  }

  /** After the first parser, the chain is the chain of the rest from where the first one stopped. */
  lemma OffsetsShift<A>(ps: seq<Parser<A>>, o: nat, k: nat)
    requires 0 < k <= |ps|
    ensures Offsets(ps, o)[k] == Offsets(ps[1..], ps[0](o).1)[k - 1]
  {
    assert Offsets(ps, o) == [o] + Offsets(ps[1..], ps[0](o).1);
  }

  lemma AttemptShift<A>(ps: seq<Parser<A>>, o: nat, k: nat)
    requires 0 < k < |ps|
    ensures Attempt(ps, o, k) == Attempt(ps[1..], ps[0](o).1, k - 1)
  {
    OffsetsShift(ps, o, k);
    assert ps[1..][k - 1] == ps[k];
  }

  // ---------------------------------------------------------------- Or

  /** Runs the alternatives left to right and returns the first success. */
  function Or<A>(ps: seq<Parser<A>>, o: nat): (r: (ParseResult<A>, nat))
    ensures r.0.Success? ==> exists k :: 0 <= k < |ps| && r == Attempt(ps, o, k)
    decreases |ps|
  {
    if ps == [] then (Failure, o)
    else
      var (result, after) := ps[0](o);
      assert Attempt(ps, o, 0) == ps[0](o);
      if result.Success? then (result, after)
      else
        assert forall j :: 0 <= j < |ps| - 1 ==> Attempt(ps, o, j + 1) == Attempt(ps[1..], after, j) by {
          forall j | 0 <= j < |ps| - 1 ensures Attempt(ps, o, j + 1) == Attempt(ps[1..], after, j) {
            AttemptShift(ps, o, j + 1);
          }
        }
        Or(ps[1..], after)
  }

  /**
   * Or fails exactly when every alternative fails, and otherwise returns the
   * result of the leftmost alternative that succeeds; later ones never run.
   */
  lemma {:induction false} OrIsFirstSuccess<A>(ps: seq<Parser<A>>, o: nat)
    ensures Or(ps, o).0.Failure? <==> forall k :: 0 <= k < |ps| ==> Attempt(ps, o, k).0.Failure?
    ensures Or(ps, o).0.Failure? ==> Or(ps, o).1 == Offsets(ps, o)[|ps|]
    ensures Or(ps, o).0.Success? ==>
      exists k :: 0 <= k < |ps| && Or(ps, o) == Attempt(ps, o, k) &&
        forall j :: 0 <= j < k ==> Attempt(ps, o, j).0.Failure?
    decreases |ps|
  {
    if ps != [] {
      var after := ps[0](o).1;
      assert Attempt(ps, o, 0) == ps[0](o);
      if ps[0](o).0.Failure? {
        OrIsFirstSuccess(ps[1..], after);
        forall k | 0 < k < |ps| ensures Attempt(ps, o, k) == Attempt(ps[1..], after, k - 1) {
          AttemptShift(ps, o, k);
        }
        OffsetsShift(ps, o, |ps|);
        if Or(ps, o).0.Success? {
          var k :| 0 <= k < |ps[1..]| && Or(ps[1..], after) == Attempt(ps[1..], after, k) &&
            forall j :: 0 <= j < k ==> Attempt(ps[1..], after, j).0.Failure?;
          assert Or(ps, o) == Attempt(ps, o, k + 1);
        }
      }
    }
  }

  /** Left bias: when the first alternative succeeds its result is returned. */
  lemma OrLeftBiased<A>(p: Parser<A>, q: Parser<A>, o: nat)
    requires p(o).0.Success?
    ensures Or([p, q], o) == p(o)
  {
  }

  // ---------------------------------------------------------------- Sequence

  /**
   * Runs the parsers in order: whether all succeeded, the located results
   * collected until the first failure, and the final offset.
   */
  function SequenceFrom<A>(ps: seq<Parser<A>>, o: nat): (r: (bool, seq<Located<A>>, nat))
    ensures r.0 ==> |r.1| == |ps|
    decreases |ps|
  {
    if ps == [] then (true, [], o)
    else
      var (result, after) := ps[0](o);
      if result.Failure? then (false, [], after)
      else
        var (ok, rest, end) := SequenceFrom(ps[1..], after);
        (ok, [result.located] + rest, end)
  }

  /**
   * Runs every parser in order and collects their located results, positioned
   * where the input stood before the first one ran; any failure fails the whole.
   */
  function Sequence<T, A>(input: Input<T>, ps: seq<Parser<A>>, o: nat): (r: (ParseResult<seq<Located<A>>>, nat))
    ensures r.0.Success? ==> r.0.located.position == input.CurrentPosition(o) && |r.0.located.value| == |ps|
    ensures r.0.Success? <==> SequenceFrom(ps, o).0
    ensures r.1 == SequenceFrom(ps, o).2
  {
    var pos := input.CurrentPosition(o);
    var (ok, results, end) := SequenceFrom(ps, o);
    if ok then (Success(Located(results, pos)), end) else (Failure, end)
  }

  lemma {:induction false} SequenceFromIsChain<A>(ps: seq<Parser<A>>, o: nat)
    ensures SequenceFrom(ps, o).0 <==> forall k :: 0 <= k < |ps| ==> Attempt(ps, o, k).0.Success?
    ensures SequenceFrom(ps, o).0 ==>
      |SequenceFrom(ps, o).1| == |ps| && SequenceFrom(ps, o).2 == Offsets(ps, o)[|ps|] &&
      forall k :: 0 <= k < |ps| ==> SequenceFrom(ps, o).1[k] == Attempt(ps, o, k).0.located
    ensures !SequenceFrom(ps, o).0 ==>
      exists k :: 0 <= k < |ps| && Attempt(ps, o, k).0.Failure? && SequenceFrom(ps, o).2 == Attempt(ps, o, k).1 &&
        forall j :: 0 <= j < k ==> Attempt(ps, o, j).0.Success?
    decreases |ps|
  {
    if ps != [] {
      var after := ps[0](o).1;
      assert Attempt(ps, o, 0) == ps[0](o);
      if ps[0](o).0.Success? {
        SequenceFromIsChain(ps[1..], after);
        forall k | 0 < k < |ps| ensures Attempt(ps, o, k) == Attempt(ps[1..], after, k - 1) {
          AttemptShift(ps, o, k);
        }
        OffsetsShift(ps, o, |ps|);
        if !SequenceFrom(ps, o).0 {
          var k :| 0 <= k < |ps[1..]| && Attempt(ps[1..], after, k).0.Failure? &&
            SequenceFrom(ps[1..], after).2 == Attempt(ps[1..], after, k).1 &&
            forall j :: 0 <= j < k ==> Attempt(ps[1..], after, j).0.Success?;
          assert Attempt(ps, o, k + 1).0.Failure?;
        }
      }
    }
  }

  /**
   * Sequence succeeds exactly when every parser succeeds; it then holds one
   * located result per parser, in order, at the position before the first ran.
   * On a failure it stops at the first failing parser and exposes no results.
   */
  lemma SequenceSpec<T, A>(input: Input<T>, ps: seq<Parser<A>>, o: nat)
    ensures Sequence(input, ps, o).0.Success? <==> forall k :: 0 <= k < |ps| ==> Attempt(ps, o, k).0.Success?
    ensures Sequence(input, ps, o).0.Success? ==>
      var v := Sequence(input, ps, o).0.located;
      v.position == input.CurrentPosition(o) && |v.value| == |ps| &&
      Sequence(input, ps, o).1 == Offsets(ps, o)[|ps|] &&
      forall k :: 0 <= k < |ps| ==> v.value[k] == Attempt(ps, o, k).0.located
    ensures Sequence(input, ps, o).0.Failure? ==>
      exists k :: 0 <= k < |ps| && Attempt(ps, o, k).0.Failure? && Sequence(input, ps, o).1 == Attempt(ps, o, k).1 &&
        forall j :: 0 <= j < k ==> Attempt(ps, o, j).0.Success?
  {
    SequenceFromIsChain(ps, o);
  }

  // ---------------------------------------------------------------- While and Until

  /**
   * `xs` is the longest run of tokens satisfying `pred` that starts at `o`,
   * and `end` is the offset just past it.
   */
  ghost predicate IsMaximalRun<T>(input: Input<T>, pred: T -> bool, o: nat, xs: seq<Located<T>>, end: nat) {
    if o <= |input.tokens| then
      && o <= end <= |input.tokens|
      && xs == input.tokens[o..end]
      && (forall i :: o <= i < end ==> pred(input.tokens[i].value))
      && (end < |input.tokens| ==> !pred(input.tokens[end].value))
    else
      xs == [] && end == o
  }

  /** A maximal run is unique: the predicate determines where the scan stops. */
  lemma MaximalRunUnique<T>(input: Input<T>, pred: T -> bool, o: nat, xs: seq<Located<T>>, e: nat, ys: seq<Located<T>>, f: nat)
    requires IsMaximalRun(input, pred, o, xs, e) && IsMaximalRun(input, pred, o, ys, f)
    ensures xs == ys && e == f
  {
  }

  /** The tokens `While` collects from `o` on, by repeated `Token(pred)`, and the offset after them. */
  function WhileFrom<T>(input: Input<T>, pred: T -> bool, o: nat): (r: (seq<Located<T>>, nat))
    ensures IsMaximalRun(input, pred, o, r.0, r.1)
    decreases |input.tokens| - o
  {
    var (result, after) := TokenIf(input, pred, o);
    if result.Failure? then ([], after)
    else
      var (rest, end) := WhileFrom(input, pred, after);
      ([result.located] + rest, end)
  }

  /** Collects the tokens satisfying `pred` up to the first that does not; never fails. */
  function While<T>(input: Input<T>, pred: T -> bool, o: nat): (r: (ParseResult<seq<Located<T>>>, nat))
    ensures r.0.Success? && r.0.located.position == input.CurrentPosition(o)
    ensures IsMaximalRun(input, pred, o, r.0.located.value, r.1)
  {
    var (results, end) := WhileFrom(input, pred, o);
    (Success(Located(results, input.CurrentPosition(o))), end)
  }

  /** Collects the tokens failing `pred` up to the first that satisfies it; never fails. */
  function Until<T>(input: Input<T>, pred: T -> bool, o: nat): (r: (ParseResult<seq<Located<T>>>, nat))
    ensures r.0.Success? && r.0.located.position == input.CurrentPosition(o)
    ensures forall i :: 0 <= i < |r.0.located.value| ==> !pred(r.0.located.value[i].value)
    ensures r.1 < |input.tokens| ==> pred(input.tokens[r.1].value)
    ensures IsMaximalRun(input, Not(pred), o, r.0.located.value, r.1)
    ensures o <= |input.tokens| ==> o <= r.1 <= |input.tokens| && r.0.located.value == input.tokens[o..r.1]
  {
    While(input, Not(pred), o)
  }

  /** Collects the tokens up to the first that equals `v`; never fails. */
  function UntilEq<T(==)>(input: Input<T>, v: T, o: nat): (r: (ParseResult<seq<Located<T>>>, nat))
    ensures r.0.Success? && r.0.located.position == input.CurrentPosition(o)
    ensures forall i :: 0 <= i < |r.0.located.value| ==> r.0.located.value[i].value != v
    ensures r.1 < |input.tokens| ==> input.tokens[r.1].value == v
    ensures IsMaximalRun(input, Not(Equals(v)), o, r.0.located.value, r.1)
    ensures o <= |input.tokens| ==> o <= r.1 <= |input.tokens| && r.0.located.value == input.tokens[o..r.1]
  {
    Until(input, Equals(v), o)
  }

  // ---------------------------------------------------------------- Many

  /** Every success of `p` strictly advances the cursor and never passes the end `n`. */
  ghost predicate Progress<A>(p: Parser<A>, n: nat) {
    forall o: nat :: p(o).0.Success? ==> o < p(o).1 <= n
  }

  /** The same for a void parser. */
  ghost predicate VoidProgress(p: VoidParser, n: nat) {
    forall o: nat :: p(o).0.success ==> o < p(o).1 <= n
  }

  /** The offset after `k` consecutive runs of `p` starting at `o`. */
  function Iterate<A>(p: Parser<A>, o: nat, k: nat): nat
    decreases k
  {
    if k == 0 then o else Iterate(p, p(o).1, k - 1)
  }

  /** The successes of `p` from `o` on, until its first failure, and where that failure left the cursor. */
  function ManyFrom<A>(p: Parser<A>, n: nat, o: nat): (r: (seq<Located<A>>, nat))
    requires Progress(p, n)
    decreases n - o
  {
    var (result, after) := p(o);
    if result.Failure? then ([], after)
    else
      var (rest, end) := ManyFrom(p, n, after);
      ([result.located] + rest, end)
  }

  /** Applies `p` until it fails and collects its successes; never fails. */
  function Many<T, A>(input: Input<T>, p: Parser<A>, o: nat): (r: (ParseResult<seq<Located<A>>>, nat))
    requires Progress(p, |input.tokens|)
    ensures r.0.Success? && r.0.located.position == input.CurrentPosition(o)
  {
    var (results, end) := ManyFrom(p, |input.tokens|, o);
    (Success(Located(results, input.CurrentPosition(o))), end)
  }

  /**
   * Many collects, in order, the result of each consecutive successful run of
   * `p`, stops at the first failing run, and leaves the cursor where that run left it.
   */
  lemma {:induction false} ManyFromCollects<A>(p: Parser<A>, n: nat, o: nat)
    requires Progress(p, n)
    ensures var (xs, end) := ManyFrom(p, n, o);
      && (forall i :: 0 <= i < |xs| ==> p(Iterate(p, o, i)).0 == Success(xs[i]))
      && p(Iterate(p, o, |xs|)).0.Failure?
      && end == p(Iterate(p, o, |xs|)).1
    decreases n - o
  {
    var (result, after) := p(o);
    if result.Success? {
      ManyFromCollects(p, n, after);
      var (rest, end) := ManyFrom(p, n, after);
      assert ManyFrom(p, n, o) == ([result.located] + rest, end);
      forall i | 0 < i <= |rest| ensures Iterate(p, o, i) == Iterate(p, after, i - 1) {
      }
    }
  }

  /** Many's collected results are exactly its parser's consecutive successes. */
  lemma ManySpec<T, A>(input: Input<T>, p: Parser<A>, o: nat)
    requires Progress(p, |input.tokens|)
    ensures var (r, end) := Many(input, p, o);
      var xs := r.located.value;
      && (forall i :: 0 <= i < |xs| ==> p(Iterate(p, o, i)).0 == Success(xs[i]))
      && p(Iterate(p, o, |xs|)).0.Failure?
      && end == p(Iterate(p, o, |xs|)).1
  {
    ManyFromCollects(p, |input.tokens|, o);
  }

  /** Where repeated runs of a void parser stop: the offset its first failure leaves. */
  function ManyVoidFrom(p: VoidParser, n: nat, o: nat): (end: nat)
    requires VoidProgress(p, n)
    decreases n - o
  {
    var (result, after) := p(o);
    if !result.success then after else ManyVoidFrom(p, n, after)
  }

  /** Applies a void parser until it fails; always reports success. */
  function ManyVoid<T>(input: Input<T>, p: VoidParser, o: nat): (r: (VoidResult, nat))
    requires VoidProgress(p, |input.tokens|)
    ensures r.0.success
  {
    (VoidResult(true), ManyVoidFrom(p, |input.tokens|, o))
  }

  /** The void form of Many consumes exactly what the value form consumes. */
  lemma {:induction false} ManyVoidMatchesMany<T, A>(input: Input<T>, p: Parser<A>, o: nat)
    requires Progress(p, |input.tokens|)
    ensures VoidProgress(Void(p), |input.tokens|)
    ensures ManyVoid(input, Void(p), o) == (VoidResult(true), Many(input, p, o).1)
    decreases |input.tokens| - o
  {
    var n := |input.tokens|;
    var (result, after) := p(o);
    assert Void(p)(o) == (result.AsVoid(), after);
    if result.Success? {
      ManyVoidMatchesMany(input, p, after);
    }
  }

  // ---------------------------------------------------------------- SepBy

  /** One round after an element: the separator, then, if it matched, the next element. */
  function Round<A>(p: Parser<A>, sep: VoidParser): Parser<A>
  {
    o => var (s, afterSep) := sep(o); if s.success then p(afterSep) else (Failure, afterSep)
  }

  /** The elements after the first: separator, element, ... until either fails. */
  function SepTail<A>(p: Parser<A>, sep: VoidParser, n: nat, o: nat): (r: (seq<Located<A>>, nat))
    requires Progress(Round(p, sep), n)
    decreases n - o
  {
    var (s, afterSep) := sep(o);
    if !s.success then ([], afterSep)
    else
      var (result, after) := p(afterSep);
      if result.Failure? then ([], after)
      else
        assert Round(p, sep)(o) == (result, after);
        var (rest, end) := SepTail(p, sep, n, after);
        ([result.located] + rest, end)
  }

  /**
   * Zero or more elements separated by `sep`; never fails. The separator is
   * tried only after an element, and a separator matched before an element
   * that then fails stays consumed.
   */
  function SepBy<T, A>(input: Input<T>, p: Parser<A>, sep: VoidParser, o: nat): (r: (ParseResult<seq<Located<A>>>, nat))
    requires Progress(Round(p, sep), |input.tokens|)
    ensures r.0.Success? && r.0.located.position == input.CurrentPosition(o)
    ensures r.0.located.value == [] <==> p(o).0.Failure?
    ensures p(o).0.Failure? ==> r.1 == p(o).1
    ensures p(o).0.Success? ==> r.0.located.value[0] == p(o).0.located
  {
    var pos := input.CurrentPosition(o);
    var (first, after) := p(o);
    if first.Failure? then (Success(Located([], pos)), after)
    else
      var (rest, end) := SepTail(p, sep, |input.tokens|, after);
      (Success(Located([first.located] + rest, pos)), end)
  }

  /** The elements after the first are what Many collects over separator-then-element rounds. */
  lemma {:induction false} SepTailIsMany<A>(p: Parser<A>, sep: VoidParser, n: nat, o: nat)
    requires Progress(Round(p, sep), n)
    ensures SepTail(p, sep, n, o) == ManyFrom(Round(p, sep), n, o)
    decreases n - o
  {
    var (s, afterSep) := sep(o);
    assert Round(p, sep)(o) == if s.success then p(afterSep) else (Failure, afterSep);
    if s.success && p(afterSep).0.Success? {
      SepTailIsMany(p, sep, n, p(afterSep).1);
    }
  }

  /**
   * SepBy is one element followed by Many over rounds of separator then
   * element (whose successes `ManyFromCollects` describes): it stops at the
   * first round whose separator or element fails.
   */
  lemma SepBySpec<T, A>(input: Input<T>, p: Parser<A>, sep: VoidParser, o: nat)
    requires Progress(Round(p, sep), |input.tokens|)
    requires p(o).0.Success?
    ensures var tail := ManyFrom(Round(p, sep), |input.tokens|, p(o).1);
      SepBy(input, p, sep, o) == (Success(Located([p(o).0.located] + tail.0, input.CurrentPosition(o))), tail.1)
  {
    SepTailIsMany(p, sep, |input.tokens|, p(o).1);
  }

  /** When the first element fails, the separator plays no part. */
  lemma SepBySeparatorNotTriedFirst<T, A>(input: Input<T>, p: Parser<A>, sep1: VoidParser, sep2: VoidParser, o: nat)
    requires Progress(Round(p, sep1), |input.tokens|) && Progress(Round(p, sep2), |input.tokens|)
    requires p(o).0.Failure?
    ensures SepBy(input, p, sep1, o) == SepBy(input, p, sep2, o)
  {
  }

  // ---------------------------------------------------------------- Between

  /**
   * Between as written: `open().Then(() => parser().Then(x => close().Return(x)))`.
   * `Return` ignores the flag of `close`'s result, so the parser's located value
   * is yielded whenever `open` and `parser` succeed, whether or not `close` does.
   */
  function Between<A>(open: VoidParser, close: VoidParser, parser: Parser<A>, o: nat): (r: (ParseResult<A>, nat))
    ensures var o1 := open(o).1;
      r.0.Success? <==> open(o).0.success && parser(o1).0.Success?
    ensures r.0.Success? ==> r.0 == parser(open(o).1).0 && r.1 == close(parser(open(o).1).1).1
    ensures !open(o).0.success ==> r.1 == open(o).1
    ensures open(o).0.success && parser(open(o).1).0.Failure? ==> r.1 == parser(open(o).1).1
  {
    var (openResult, afterOpen) := open(o);
    if !openResult.success then (Failure, afterOpen)
    else
      var (result, afterParser) := parser(afterOpen);
      if result.Failure? then (Failure, afterParser)
      else
        var (closed, afterClose) := close(afterParser);
        (closed.Return(result.located), afterClose)
  }

  /** The value form of Between is the `Then` chain of the result algebra on the steps' results. */
  lemma BetweenIsThenChain<A>(open: VoidParser, close: VoidParser, parser: Parser<A>, o: nat)
    ensures var (openResult, o1) := open(o);
      var (result, o2) := parser(o1);
      var (closed, _) := close(o2);
      Between(open, close, parser, o).0 == openResult.Then(() => result.Then(x => closed.Return(x)))
  {
    var (openResult, o1) := open(o);
    var (result, o2) := parser(o1);
    var (closed, _) := close(o2);
    if openResult.success && result.Success? {
      assert result.Then(x => closed.Return(x)) == closed.Return(result.located);
    }
  }

  /** Between as documented: the parser's value only if all three steps succeed. */
  function BetweenAll<A>(open: VoidParser, close: VoidParser, parser: Parser<A>, o: nat): (r: (ParseResult<A>, nat))
    ensures var o1 := open(o).1;
      var o2 := parser(o1).1;
      r.0.Success? <==> open(o).0.success && parser(o1).0.Success? && close(o2).0.success
    ensures r.0.Success? ==> r.0 == parser(open(o).1).0
    ensures !open(o).0.success ==> r.1 == open(o).1
    ensures open(o).0.success && parser(open(o).1).0.Failure? ==> r.1 == parser(open(o).1).1
    ensures open(o).0.success && parser(open(o).1).0.Success? ==> r.1 == close(parser(open(o).1).1).1
  {
    var (openResult, afterOpen) := open(o);
    if !openResult.success then (Failure, afterOpen)
    else
      var (result, afterParser) := parser(afterOpen);
      if result.Failure? then (Failure, afterParser)
      else
        var (closed, afterClose) := close(afterParser);
        (closed.Then(() => Success(result.located)), afterClose)
  }

  /** The two agree whenever `close` succeeds; they differ only on a failing `close`. */
  lemma BetweenAllAgrees<A>(open: VoidParser, close: VoidParser, parser: Parser<A>, o: nat)
    ensures Between(open, close, parser, o).1 == BetweenAll(open, close, parser, o).1
    ensures var o2 := parser(open(o).1).1;
      close(o2).0.success ==> Between(open, close, parser, o) == BetweenAll(open, close, parser, o)
  {
  }

  /** The void form: `open().Then(() => parser().Then(close))`; succeeds iff all three do. */
  function BetweenVoid(open: VoidParser, close: VoidParser, parser: VoidParser, o: nat): (r: (VoidResult, nat))
    ensures var o1 := open(o).1;
      var o2 := parser(o1).1;
      r.0.success <==> open(o).0.success && parser(o1).0.success && close(o2).0.success
    ensures !open(o).0.success ==> r.1 == open(o).1
    ensures open(o).0.success && !parser(open(o).1).0.success ==> r.1 == parser(open(o).1).1
    ensures open(o).0.success && parser(open(o).1).0.success ==> r == close(parser(open(o).1).1)
  {
    var (openResult, afterOpen) := open(o);
    if !openResult.success then (VoidResult(false), afterOpen)
    else
      var (result, afterParser) := parser(afterOpen);
      if !result.success then (VoidResult(false), afterParser)
      else close(afterParser)
  }
}
