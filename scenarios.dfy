/** Concrete runs of the engine on small texts, including the two places where the code and its documentation part ways. */
module Scenarios {
  import opened Locations
  import opened Results
  import opened Inputs
  import C = Combinators
  import opened ParsableFiles
  import opened CharParsers

  /** Consumes any one character. */
  function AnyChar(input: Input<char>): C.Parser<char> {
    o => C.Token(input, o)
  }

  /** Consumes the character `c`. */
  function Char(input: Input<char>, c: char): C.Parser<char> {
    o => C.TokenEq(input, c, o)
  }

  /**
   * Try as written keeps consumed input: on "ab", "any character then 'x'"
   * reads 'a', fails on 'b', and Try leaves the cursor after the 'a'. The
   * documented Try would have rolled it back to 0.
   */
  lemma TryKeepsConsumedInput()
    ensures var input := FileInput("ab");
      var p := (o: nat) => C.Sequence(input, [AnyChar(input), Char(input, 'x')], o);
      C.Try(p, 0) == (Failure, 1) && C.TryRestoring(p, 0) == (Failure, 0)
  {
    var input := FileInput("ab");
    var ps := [AnyChar(input), Char(input, 'x')];
    assert input.tokens[0].value == 'a' && input.tokens[1].value == 'b';
    assert ps[1..] == [Char(input, 'x')];
    assert C.SequenceFrom(ps[1..], 1) == (false, [], 1);
    assert C.SequenceFrom(ps, 0).0 == false && C.SequenceFrom(ps, 0).2 == 1;
  }

  /** Consumes one lower-case letter. */
  function Letter(input: Input<char>): C.Parser<char> {
    o => C.TokenIf(input, IsLower, o)
  }

  /** The characters of a file's tokens are the file's characters. */
  lemma FileText(text: string, o: nat, e: nat)
    requires o <= e <= |text|
    ensures Text(FileInput(text).tokens[o..e]) == text[o..e]
  {
    var input := FileInput(text);
    forall i | 0 <= i < e - o ensures Text(input.tokens[o..e])[i] == text[o..e][i] {
      assert input.tokens[o..e][i] == input.tokens[o + i];
    }
  }

  /** A scan over a file stops exactly at the first character outside the class. */
  lemma FileScan(text: string, cls: char -> bool, o: nat, e: nat)
    requires o <= e <= |text|
    requires forall i :: o <= i < e ==> cls(text[i])
    requires e < |text| ==> !cls(text[e])
    ensures Scanner(FileInput(text), cls)(o) == (Success(Located(text[o..e], PositionAfter(text[..o]))), e)
  {
    var input := FileInput(text);
    var (run, end) := C.While(input, cls, o);
    var r := ToString(run);
    RunScanned(input, cls, o);
    FileText(text, o, end);
    assert r.located.value == text[o..end];
    assert Scanner(input, cls)(o) == (r, end);
  }

  /** In "(abc", the letters after the parenthesis are "abc", at line 1, column 1. */
  lemma LettersAfterParenthesis()
    ensures Scanner(FileInput("(abc"), IsLower)(1) == (Success(Located("abc", Position(1, 1))), 4)
  {
    var text := "(abc";
    assert text[1] == 'a' && text[2] == 'b' && text[3] == 'c';
    FileScan(text, IsLower, 1, 4);
    assert text[1..4] == "abc";
    assert text[..1] == "(" && PositionAfter("(") == Position(1, 1);
  }

  /** In "(abc", '(' opens at offset 0 and ')' is missing at offset 4. */
  lemma ParenthesesOfText()
    ensures var input := FileInput("(abc");
      && C.Void(Char(input, '('))(0) == (VoidResult(true), 1)
      && C.Void(Char(input, ')'))(4) == (VoidResult(false), 4)
  {
    var input := FileInput("(abc");
    assert input.tokens[0].value == '(';
    assert Char(input, '(')(0) == C.TokenEq(input, '(', 0);
    assert Char(input, ')')(4) == C.TokenEq(input, ')', 4);
    assert C.TokenEq(input, '(', 0).0.Success? && C.TokenEq(input, '(', 0).1 == 1;
    assert C.TokenEq(input, ')', 4) == (Failure, 4);
  }

  /**
   * Between as written ignores a failing `close`: "(abc" with open '(',
   * close ')' and lower-case letters yields "abc" at line 1, column 1,
   * although ')' is missing. The documented form fails.
   */
  lemma BetweenIgnoresMissingClose()
    ensures var input := FileInput("(abc");
      var open := C.Void(Char(input, '('));
      var close := C.Void(Char(input, ')'));
      var letters := Scanner(input, IsLower);
      && C.Between(open, close, letters, 0) == (Success(Located("abc", Position(1, 1))), 4)
      && C.BetweenAll(open, close, letters, 0).0.Failure?
  {
    LettersAfterParenthesis();
    ParenthesesOfText();
  }

  /** Single letters separated by any one character make progress. */
  lemma LetterRoundsProgress(input: Input<char>, c: char)
    ensures C.Progress(C.Round(Letter(input), C.Void(Char(input, c))), |input.tokens|)
  {
  }

  /**
   * SepBy keeps a trailing separator: on "a," with single letters separated
   * by ',', the list is ["a"] and the cursor stands after the ',' (offset 2).
   */
  lemma SepByKeepsTrailingSeparator()
    ensures var input := FileInput("a,");
      var comma := C.Void(Char(input, ','));
      C.Progress(C.Round(Letter(input), comma), |input.tokens|) &&
      C.SepBy(input, Letter(input), comma, 0) == (Success(Located([Located('a', Position(1, 0))], Position(1, 0))), 2)
  {
    var text := "a,";
    var input := FileInput(text);
    var comma := C.Void(Char(input, ','));
    LetterRoundsProgress(input, ',');
    assert text[..0] == [];
    assert input.tokens[0] == Located('a', Position(1, 0));
    assert input.tokens[1].value == ',';
    assert Letter(input)(0) == (Success(Located('a', Position(1, 0))), 1);
    assert Char(input, ',')(1) == C.TokenEq(input, ',', 1);
    assert comma(1) == (VoidResult(true), 2);
    assert Letter(input)(2) == (Failure, 2);
    assert C.SepTail(Letter(input), comma, |input.tokens|, 1) == ([], 2);
    assert [Located('a', Position(1, 0))] + [] == [Located('a', Position(1, 0))];
    assert input.CurrentPosition(0) == Position(1, 0);
  }

  /** "   \t\n" is whitespace to the end: the scan consumes it all. */
  lemma WhitespaceConsumesAll()
    ensures var input := FileInput("   \t\n");
      Scanner(input, IsWhitespace)(0) == (Success(Located("   \t\n", Position(1, 0))), 5)
      && input.EndOfInput(5)
  {
    var text := "   \t\n";
    assert text[0] == ' ' && text[1] == ' ' && text[2] == ' ' && text[3] == '\t' && text[4] == '\n';
    FileScan(text, IsWhitespace, 0, 5);
    assert text[0..5] == text && text[..0] == [];
  }

  /** On an empty text the digit scan succeeds with the empty string. */
  lemma DigitsOnEmptyText()
    ensures Scanner(FileInput(""), IsDigit)(0) == (Success(Located("", Position(1, 0))), 0)
  {
    RunScanned(FileInput(""), IsDigit, 0);
  }

  /** In "123abc", the digits are "123" at column 0 and the letters "abc" at column 3. */
  lemma ScansOfDigitsAndLetters()
    ensures var input := FileInput("123abc");
      && Scanner(input, IsDigit)(0) == (Success(Located("123", Position(1, 0))), 3)
      && Scanner(input, IsLower)(3) == (Success(Located("abc", Position(1, 3))), 6)
  {
    var text := "123abc";
    assert text[0] == '1' && text[1] == '2' && text[2] == '3';
    assert text[3] == 'a' && text[4] == 'b' && text[5] == 'c';
    FileScan(text, IsDigit, 0, 3);
    FileScan(text, IsLower, 3, 6);
    assert text[0..3] == "123" && text[3..6] == "abc" && text[..0] == [];
    assert text[..3] == "123" && PositionAfter("123") == Position(1, 3);
  }

  /** "123abc": digits then lower-case letters yield "123" at column 0 and "abc" at column 3. */
  lemma DigitsThenLowerCase()
    ensures var input := FileInput("123abc");
      C.Sequence(input, [Scanner(input, IsDigit), Scanner(input, IsLower)], 0)
        == (Success(Located([Located("123", Position(1, 0)), Located("abc", Position(1, 3))], Position(1, 0))), 6)
  {
    var input := FileInput("123abc");
    var ps := [Scanner(input, IsDigit), Scanner(input, IsLower)];
    ScansOfDigitsAndLetters();
    assert ps[1..][1..] == [];
    assert C.SequenceFrom(ps[1..][1..], 6) == (true, [], 6);
    assert ps[1..][0] == Scanner(input, IsLower);
    assert [Located("abc", Position(1, 3))] + [] == [Located("abc", Position(1, 3))];
    assert C.SequenceFrom(ps[1..], 3) == (true, [Located("abc", Position(1, 3))], 6);
    assert ps[0] == Scanner(input, IsDigit);
    assert [Located("123", Position(1, 0))] + [Located("abc", Position(1, 3))]
      == [Located("123", Position(1, 0)), Located("abc", Position(1, 3))];
    assert C.SequenceFrom(ps, 0) == (true, [Located("123", Position(1, 0)), Located("abc", Position(1, 3))], 6);
    assert input.CurrentPosition(0) == Position(1, 0);
  }
}
