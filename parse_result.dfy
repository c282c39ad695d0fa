/** The outcome of a parse step: a Maybe monad over located values, and its void variant. */
module Results {
  import opened Locations

  datatype Option<+T> = None | Some(value: T)

  /** The outcome of a step that yields no value: only whether it succeeded. */
  datatype VoidResult = VoidResult(success: bool) {

    /** Runs the continuation only if this step succeeded. */
    function Then<B>(k: () -> ParseResult<B>): (r: ParseResult<B>)
      ensures !success ==> r.Failure?
      ensures success ==> r == k()
    {
      if !success then Failure else k()
    }

    /** Runs the void continuation only if this step succeeded. */
    function ThenVoid(k: () -> VoidResult): (r: VoidResult)
      ensures !success ==> !r.success
      ensures success ==> r == k()
    {
      if !success then VoidResult(false) else k()
    }

    /** Wraps `v` as a success. The flag of this result plays no part. */
    function Return<B>(v: Located<B>): (r: ParseResult<B>)
      ensures r.Success? && r.located == v
    {
      Success(v)
    }
  }

  /** The outcome of a step that yields a located value. */
  datatype ParseResult<+R> = Failure | Success(located: Located<R>) {

    /** A success carrying `value` at `position`. */
    static function Of(value: R, position: Position): (r: ParseResult<R>)
      ensures r.Success? && r.located.value == value && r.located.position == position
    {
      Success(Located(value, position))
    }

    /** The payload, present exactly when the step succeeded. */
    function Result(): (r: Option<Located<R>>)
      ensures r.Some? <==> Success?
      ensures Success? ==> r.value == located
    {
      if Success? then Some(located) else None
    }

    /** The success flag alone, as seen through the void result type. */
    function AsVoid(): (r: VoidResult)
      ensures r.success <==> Success?
    {
      VoidResult(Success?)
    }

    /** Passes the located payload to the continuation only on success. */
    function Then<B>(k: Located<R> -> ParseResult<B>): (r: ParseResult<B>)
      ensures Failure? ==> r.Failure?
      ensures Success? ==> r == k(located)
    {
      if !Success? then Failure else k(located)
    }

    /** Passes the located payload to a void continuation only on success. */
    function ThenVoid(k: Located<R> -> VoidResult): (r: VoidResult)
      ensures Failure? ==> !r.success
      ensures Success? ==> r == k(located)
    {
      if !Success? then VoidResult(false) else k(located)
    }

    /** Transforms the payload of a success; a failure stays a failure. */
    function Map<B>(f: R -> B): (r: ParseResult<B>)
      ensures Failure? ==> r.Failure?
      ensures Success? ==> r.Success? && r.located.position == located.position
      ensures Success? ==> r.located.value == f(located.value)
    {
      if !Success? then Failure else Success(located.Map(f))
    }
  }

  /** Left identity: binding a success feeds its payload to the continuation. */
  lemma ThenLeftIdentity<R, B>(v: Located<R>, k: Located<R> -> ParseResult<B>)
    ensures Success(v).Then(k) == k(v)
  {
  }

  /** Right identity: binding with `Success` gives the result back. */
  lemma ThenRightIdentity<R>(r: ParseResult<R>)
    ensures r.Then(l => Success(l)) == r
  {
  }

  /** Binding is associative. */
  lemma ThenAssociative<R, B, C>(r: ParseResult<R>, f: Located<R> -> ParseResult<B>, g: Located<B> -> ParseResult<C>)
    ensures r.Then(f).Then(g) == r.Then(l => f(l).Then(g))
  {
  }

  /** `Map` is binding with a success that keeps the position. */
  lemma MapIsThen<R, B>(r: ParseResult<R>, f: R -> B)
    ensures r.Map(f) == r.Then((l: Located<R>) => Success(l.Map(f)))
  {
  }

  /** Mapping the identity changes nothing; mapping twice is mapping the composition. */
  lemma MapFunctor<R, B, C>(r: ParseResult<R>, f: R -> B, g: B -> C)
    ensures r.Map(x => x) == r
    ensures r.Map(f).Map(g) == r.Map(x => g(f(x)))
  {
  }

  /** The void `Then` seen from a value result is the generic `Then` that ignores the value. */
  lemma VoidThenAgrees<R, B>(r: ParseResult<R>, k: () -> ParseResult<B>)
    ensures r.AsVoid().Then(k) == r.Then(_ => k())
  {
  }

  /** `Return` succeeds whatever the flag of its receiver. */
  lemma ReturnIgnoresFlag<B>(v: Located<B>)
    ensures VoidResult(false).Return(v) == VoidResult(true).Return(v) == Success(v)
  {
  }
}
