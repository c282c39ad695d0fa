/** Character-class scanners built on the engine for inputs of characters. */
module CharParsers {
  import opened Locations
  import opened Results
  import opened Inputs
  import C = Combinators
  import Engine

  predicate IsWhitespace(c: char) {
    c == ' ' || c == '\t' || c == '\n' || c == '\r'
  }

  predicate IsDigit(c: char) {
    '0' <= c <= '9'
  }

  predicate IsLower(c: char) {
    'a' <= c <= 'z'
  }

  predicate IsUpper(c: char) {
    'A' <= c <= 'Z'
  }

  /** The characters of a run of located characters, in order. */
  function Text(tokens: seq<Located<char>>): (s: string)
    ensures |s| == |tokens|
    ensures forall i :: 0 <= i < |s| ==> s[i] == tokens[i].value
  {
    seq(|tokens|, i requires 0 <= i < |tokens| => tokens[i].value)
  }

  /** A collected run as a string, positioned where the run started. */
  function ToString(results: ParseResult<seq<Located<char>>>): (r: ParseResult<string>)
    ensures r.Success? <==> results.Success?
    ensures r.Success? ==> r.located.position == results.located.position
    ensures r.Success? ==> |r.located.value| == |results.located.value|
    ensures r.Success? ==> forall i :: 0 <= i < |r.located.value| ==> r.located.value[i] == results.located.value[i].value
  {
    results.Map(Text)
  }

  /**
   * `r` is the longest run of characters of class `cls` starting at `o`, as a
   * successful string positioned at `o`, and `end` is the offset just past it.
   */
  ghost predicate Scanned(input: Input<char>, cls: char -> bool, o: nat, r: ParseResult<string>, end: nat) {
    && r.Success? && r.located.position == input.CurrentPosition(o)
    && (forall i :: 0 <= i < |r.located.value| ==> cls(r.located.value[i]))
    && (end < |input.tokens| ==> !cls(input.tokens[end].value))
    && (o <= |input.tokens| ==> o <= end <= |input.tokens| && r.located.value == Text(input.tokens[o..end]))
    && (o > |input.tokens| ==> r.located.value == "" && end == o)
  }

  /** `While(cls)` mapped to a string is exactly the maximal run of that class. */
  lemma RunScanned(input: Input<char>, cls: char -> bool, o: nat)
    ensures Scanned(input, cls, o, ToString(C.While(input, cls, o).0), C.While(input, cls, o).1)
  {
    var (run, end) := C.While(input, cls, o);
    var r := ToString(run);
    forall i | 0 <= i < |r.located.value| ensures cls(r.located.value[i]) {
      if o <= |input.tokens| {
        assert run.located.value[i] == input.tokens[o + i];
      }
    }
  }

  /** `While(cls)` mapped to a string, as a parser value; at every offset it scans the maximal run of `cls`. */
  function Scanner(input: Input<char>, cls: char -> bool): (q: C.Parser<string>)
    ensures forall o: nat :: Scanned(input, cls, o, q(o).0, q(o).1)
  {
    assert forall o: nat :: Scanned(input, cls, o, ToString(C.While(input, cls, o).0), C.While(input, cls, o).1) by {
      forall o: nat ensures Scanned(input, cls, o, ToString(C.While(input, cls, o).0), C.While(input, cls, o).1) {
        RunScanned(input, cls, o);
      }
    }
    o => var (run, end) := C.While(input, cls, o); (ToString(run), end)
  }

  /** Whitespace: spaces, tabs, line feeds and carriage returns; never fails. */
  method Whitespace(input: Input<char>, o: nat) returns (r: ParseResult<string>, o': nat)
    ensures Scanned(input, IsWhitespace, o, r, o')
    ensures (r, o') == Scanner(input, IsWhitespace)(o)
  {
    var run, end := Engine.While(input, IsWhitespace, o);
    r, o' := ToString(run), end;
    RunScanned(input, IsWhitespace, o);
  }

  /** Decimal digits; never fails, and yields an empty string when none is next. */
  method Digits(input: Input<char>, o: nat) returns (r: ParseResult<string>, o': nat)
    ensures Scanned(input, IsDigit, o, r, o')
    ensures (r, o') == Scanner(input, IsDigit)(o)
  {
    var run, end := Engine.While(input, IsDigit, o);
    r, o' := ToString(run), end;
    RunScanned(input, IsDigit, o);
  }

  /** Lower-case ASCII letters; never fails. */
  method LowerCase(input: Input<char>, o: nat) returns (r: ParseResult<string>, o': nat)
    ensures Scanned(input, IsLower, o, r, o')
    ensures (r, o') == Scanner(input, IsLower)(o)
  {
    var run, end := Engine.While(input, IsLower, o);
    r, o' := ToString(run), end;
    RunScanned(input, IsLower, o);
  }

  /** Upper-case ASCII letters; never fails. */
  method UpperCase(input: Input<char>, o: nat) returns (r: ParseResult<string>, o': nat)
    ensures Scanned(input, IsUpper, o, r, o')
    ensures (r, o') == Scanner(input, IsUpper)(o)
  {
    var run, end := Engine.While(input, IsUpper, o);
    r, o' := ToString(run), end;
    RunScanned(input, IsUpper, o);
  }

  /** `Or(LowerCase, UpperCase)` as a parser value; at every offset it is the lower-case scan. */
  function MixedCaseParser(input: Input<char>): (q: C.Parser<string>)
    ensures forall o: nat :: q(o) == Scanner(input, IsLower)(o)
  {
    assert forall o: nat :: C.Or([Scanner(input, IsLower), Scanner(input, IsUpper)], o) == Scanner(input, IsLower)(o) by {
      forall o: nat ensures C.Or([Scanner(input, IsLower), Scanner(input, IsUpper)], o) == Scanner(input, IsLower)(o) {
        RunScanned(input, IsLower, o);
        C.OrLeftBiased(Scanner(input, IsLower), Scanner(input, IsUpper), o);
      }
    }
    o => C.Or([Scanner(input, IsLower), Scanner(input, IsUpper)], o)
  }

  /**
   * `Or(LowerCase, UpperCase)`: since the lower-case scan never fails, this is
   * always its result and the upper-case scan never runs.
   */
  method MixedCase(input: Input<char>, o: nat) returns (r: ParseResult<string>, o': nat)
    ensures (r, o') == Scanner(input, IsLower)(o)
    ensures Scanned(input, IsLower, o, r, o')
  {
    r, o' := Engine.Or([Scanner(input, IsLower), Scanner(input, IsUpper)], o);
    RunScanned(input, IsLower, o);
    C.OrLeftBiased(Scanner(input, IsLower), Scanner(input, IsUpper), o);
  }

  /** `Or(MixedCase, Digits)`: likewise always the lower-case scan's result. */
  method MixedCaseAndDigits(input: Input<char>, o: nat) returns (r: ParseResult<string>, o': nat)
    ensures (r, o') == Scanner(input, IsLower)(o)
    ensures Scanned(input, IsLower, o, r, o')
  {
    r, o' := Engine.Or([MixedCaseParser(input), Scanner(input, IsDigit)], o);
    RunScanned(input, IsLower, o);
    C.OrLeftBiased(Scanner(input, IsLower), Scanner(input, IsUpper), o);
    C.OrLeftBiased(MixedCaseParser(input), Scanner(input, IsDigit), o);
  }

  /** The characters up to the first that satisfies `pred`; never fails. */
  method StrUntil(input: Input<char>, pred: char -> bool, o: nat) returns (r: ParseResult<string>, o': nat)
    ensures r.Success? && r.located.position == input.CurrentPosition(o)
    ensures forall i :: 0 <= i < |r.located.value| ==> !pred(r.located.value[i])
    ensures o' < |input.tokens| ==> pred(input.tokens[o'].value)
    ensures o <= |input.tokens| ==> o <= o' <= |input.tokens| && r.located.value == Text(input.tokens[o..o'])
  {
    var run, end := Engine.Until(input, pred, o);
    r := run.Map(Text);
    o' := end;
    RunScanned(input, C.Not(pred), o);
  }

  /** Whether `x` is one of `cs`, checked member by member. */
  function MatchesAny(cs: seq<char>, x: char): (b: bool)
    ensures b <==> x in cs
  {
    if cs == [] then false
    else if x == cs[0] then true
    else
      assert cs == [cs[0]] + cs[1..];
      MatchesAny(cs[1..], x)
  }

  /** The membership test of `StrUntil(c...)`: scans `cs` and stops at the first match. */
  method Contains(cs: seq<char>, x: char) returns (b: bool)
    ensures b <==> x in cs
    ensures b == MatchesAny(cs, x)
  {
    for i := 0 to |cs|
      invariant x !in cs[..i]
    {
      if x == cs[i] {
        return true;
      }
    }
    assert cs[..|cs|] == cs;
    return false;
  }

  /** The predicate "is one of `cs`". */
  function AnyOf(cs: seq<char>): (q: char -> bool)
    ensures forall x :: q(x) <==> x in cs
  {
    x => MatchesAny(cs, x)
  }

  /** The characters up to the first occurrence of any of `cs`, or to the end; never fails. */
  method StrUntilAny(input: Input<char>, cs: seq<char>, o: nat) returns (r: ParseResult<string>, o': nat)
    ensures r.Success? && r.located.position == input.CurrentPosition(o)
    ensures forall i :: 0 <= i < |r.located.value| ==> r.located.value[i] !in cs
    ensures o' < |input.tokens| ==> input.tokens[o'].value in cs
    ensures o <= |input.tokens| ==> o <= o' <= |input.tokens| && r.located.value == Text(input.tokens[o..o'])
  {
    r, o' := StrUntil(input, AnyOf(cs), o);
  }
}
