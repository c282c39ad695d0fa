# Etilic.Text parser combinators in Dafny

This project models the parsing engine of Etilic.Text. The engine is a small parser-combinator library written in C#. It has four parts:

- **The result algebra** (`located.dfy`, `parse_result.dfy`). `Located<T>` tags a value with the line and column where it starts. `ParseResult<R>` is a Maybe monad over located values, with `Then`, `Map` and `Return`. `VoidResult` is the flag-only result of the non-generic `ParseResult`. The monad laws are proved as lemmas.
- **The combinators** (`input.dfy`, `combinators.dfy`, `engine.dfy`).
  - The engine's shared token cursor is a value: an `Input` (every token with its position, plus the end position) and an offset.
  - A parser is a function from an offset to a result and the offset it leaves the cursor at.
  - `Combinators` defines every combinator as a function over such parsers. `Try`, `Token` (all three overloads), `Peek`, `Or`, `Sequence`, `While`, `Until`, `Many`, `SepBy`, `Between` and the void forms are all there, together with what they promise.
  - `Engine` holds the loops of `Or`, `Sequence`, `While`, `Many` and `SepBy` as methods with loop invariants. Each is proved to compute its combinator exactly.
- **The character cursor** (`parsable_file.dfy`).
  - `ParsableFile` is a class with the mutable fields `line`, `column` and `offset`, read over an in-memory text.
  - Its invariant `Valid()` says that line and column are the position reached after reading the first `offset` characters.
  - `NextToken`, `PeekToken` and the restore points (`FileRestorePoint`: snapshot, `Restore`, `Dispose`) are methods on it.
  - `FileInput(text)` is the token stream the class presents to the combinators. `NextToken` is proved to agree with it.
- **The character helpers** (`char_parser.dfy`). `Whitespace`, `Digits`, `LowerCase`, `UpperCase`, `MixedCase`, `MixedCaseAndDigits` and both `StrUntil` overloads are methods over the engine. Each is proved to return the maximal run of its character class as a string.

`scenarios.dfy` proves what the combinators yield on small literal texts. Two of these lemmas exhibit the findings below.

The doc comments in the source disagree with its code in three places. The model follows the code in each:

- `Try` (Parser.cs:42-46) and the value form of `Between` (Parser.cs:264-266). Both are listed under Findings, each with a corrected definition.
- The summary of `While` (Parser.cs:149-153) says it parses tokens "until the predicate succeeds". Its loop (Parser.cs:161-169) consumes tokens while the predicate holds and stops at the first token that fails it. `Combinators.While` follows the loop, and `Until` is the form that stops where the predicate holds.

Two more behaviours are modelled as written and proved:

- `MixedCase` and `MixedCaseAndDigits` always return the lower-case scan's result, because that scan never fails and `Or` is left-biased.
- `SepBy` leaves a matched trailing separator consumed.

## Model

| member | source | states |
|---|---|---|
| `Locations.Located.Map` | Located.cs:57-60 | the position is kept and the value is `f` applied to the original value |
| `Locations.MapIdentity` | Located.cs:57-60 | mapping the identity gives the original located value back |
| `Locations.MapComposition` | Located.cs:57-60 | `Map(f)` then `Map(g)` equals `Map(g ∘ f)` |
| `Results.VoidResult.Then` | ParseResult.cs:61-67 | a failed receiver gives failure; a successful one gives exactly the continuation's result |
| `Results.VoidResult.ThenVoid` | ParseResult.cs:81-87 | the same for a void continuation |
| `Results.VoidResult.Return` | ParseResult.cs:97-100 | the result is a success carrying exactly the given located value |
| `Results.ReturnIgnoresFlag` | ParseResult.cs:97-100 | `Return` gives the same success from a failed and from a successful receiver |
| `Results.ParseResult.Of` | ParseResult.cs:149-151 | the `(value, position)` constructor is a success carrying that value at that position |
| `Results.ParseResult.Result` | ParseResult.cs:121-124 | a payload is present exactly on success, and it is the stored located value |
| `Results.ParseResult.AsVoid` | ParseResult.cs:25-28 | the base-class view of a result reports success exactly when the result is a success |
| `Results.ParseResult.Then` | ParseResult.cs:171-177 | a failure short-circuits; a success passes its located value to the continuation and returns its result |
| `Results.ParseResult.ThenVoid` | ParseResult.cs:191-197 | the same for a continuation with a void result |
| `Results.ParseResult.Map` | ParseResult.cs:201-208 | failure stays failure; a success keeps its position and carries `f` of its value |
| `Results.ThenLeftIdentity` | ParseResult.cs:139-143 | `Success(v).Then(k) == k(v)` |
| `Results.ThenRightIdentity` | ParseResult.cs:171-177 | `r.Then(v => Success(v)) == r` |
| `Results.ThenAssociative` | ParseResult.cs:171-177 | `Then` is associative |
| `Results.MapIsThen` | ParseResult.cs:201-208 | `Map(f)` is `Then` with a success that maps the located value |
| `Results.MapFunctor` | ParseResult.cs:201-208 | `Map` preserves the identity and composition |
| `Results.VoidThenAgrees` | ParseResult.cs:61-67 | the inherited void `Then` on a value result is the generic `Then` ignoring the value |
| `Inputs.Input.PeekToken` | IParsable.cs:53-57 | the peeked token carries the current position |
| `Inputs.Input.NextToken` | IParsable.cs:48-52 | consuming returns the token that peeking shows and advances the offset by one |
| `Combinators.Try` | Parser.cs:50-63 | the outcome, including the cursor after a failure, is exactly the parser's own: nothing is restored |
| `Combinators.TryRestoring` | Parser.cs:42-46 | the documented Try: same result; after a failure the cursor is back where it started |
| `Combinators.Token` | Parser.cs:73-82 | fails exactly at end of input without moving; on success consumes one token and returns it at its position |
| `Combinators.TokenIf` | Parser.cs:90-101 | succeeds iff a token remains and satisfies the predicate; a rejected token is not consumed; otherwise as `Token` |
| `Combinators.TokenEq` | Parser.cs:103-106 | succeeds iff the next token equals the value; consumes exactly that token |
| `Combinators.Peek` | Parser.cs:109-116 | never moves the cursor; fails exactly at end of input; otherwise returns the token `Token` would consume |
| `Combinators.Or` | Parser.cs:118-129 | a success is the result and cursor of one of the alternatives run at its place in the chain |
| `Combinators.OrIsFirstSuccess` | Parser.cs:118-129 | Or fails iff every alternative fails; otherwise it is the result of the leftmost success, with every earlier alternative failing |
| `Combinators.OrLeftBiased` | Parser.cs:118-129 | when the first alternative succeeds, Or returns its result |
| `Combinators.Sequence` | Parser.cs:131-147 | a success is positioned where the cursor stood before the first parser, and holds one result per parser |
| `Combinators.SequenceFromIsChain` | Parser.cs:136-144 | the loop's collected results are one per parser in order iff all succeed; otherwise it stops at the first failure |
| `Combinators.SequenceSpec` | Parser.cs:131-147 | Sequence succeeds iff every parser does; it then holds one located result per parser, in order, at the start position; a failure stops at the first failing parser |
| `Combinators.MaximalRunUnique` | Parser.cs:154-173 | the collected run and the stop offset are determined by the predicate |
| `Combinators.WhileFrom` | Parser.cs:161-169 | the repeated `Token(pred)` loop collects the maximal run of tokens satisfying the predicate |
| `Combinators.While` | Parser.cs:154-173 | never fails, is positioned at the scan start, collects exactly the tokens between start and stop, all satisfying the predicate, and the next token fails it |
| `Combinators.Until` | Parser.cs:175-178 | never fails and is positioned at the start; it is the maximal run of tokens failing the predicate: exactly the tokens from the start to the stop offset, none satisfying it, and the next token, if any, satisfies it |
| `Combinators.UntilEq` | Parser.cs:180-183 | never fails; the maximal run of tokens not equal to the value: exactly the tokens from the start to the stop offset, and the next token, if any, equals the value |
| `Combinators.Many` | Parser.cs:185-204 | never fails and is positioned at the start |
| `Combinators.ManyFromCollects` | Parser.cs:192-200 | the i-th result is the i-th consecutive success of the parser; the run after the last result fails, and the cursor is where it left it |
| `Combinators.ManySpec` | Parser.cs:185-204 | Many's value is exactly the parser's consecutive successes up to its first failure |
| `Combinators.ManyVoid` | Parser.cs:206-218 | the void Many always reports success |
| `Combinators.ManyVoidMatchesMany` | Parser.cs:206-218 | the void Many consumes exactly what the value Many consumes over the same parser |
| `Combinators.SepBy` | Parser.cs:228-253 | never fails, is positioned at the start, is empty iff the first element fails (leaving the cursor where that failure did), and otherwise starts with the first element |
| `Combinators.SepTailIsMany` | Parser.cs:235-249 | after the first element the loop collects Many over separator-then-element rounds |
| `Combinators.SepBySpec` | Parser.cs:228-253 | SepBy is the first element followed by the successes of separator-then-element rounds, stopping when a separator or an element fails |
| `Combinators.SepBySeparatorNotTriedFirst` | Parser.cs:237-241 | the separator is never run before the first element |
| `Combinators.Between` | Parser.cs:268-274 | succeeds iff `open` and `parser` succeed, whatever `close` does; it then yields the parser's located value, and the cursor stands where `close` left it; a failing `open` or `parser` stops there, `close` is not run, and the cursor stays where the failing step left it, with nothing rolled back |
| `Combinators.BetweenIsThenChain` | Parser.cs:268-274 | the value Between is `open().Then(() => parser().Then(x => close().Return(x)))` on the steps' results |
| `Combinators.BetweenAll` | Parser.cs:264-266 | the documented Between: succeeds iff all three steps succeed, yielding the parser's value; the cursor stands where the first failing step, or else `close`, left it |
| `Combinators.BetweenAllAgrees` | Parser.cs:264-274 | the two forms consume the same input and agree whenever `close` succeeds |
| `Combinators.BetweenVoid` | Parser.cs:284-290 | succeeds iff open, parser and close all succeed in turn; stops at the first failure; once open and parser succeed it is exactly `close`'s result and cursor |
| `Engine.Or` | Parser.cs:118-129 | the foreach loop computes `Combinators.Or` |
| `Engine.Sequence` | Parser.cs:131-147 | the foreach loop computes `Combinators.Sequence` |
| `Engine.While` | Parser.cs:154-173 | the do-while loop computes `Combinators.While` |
| `Engine.Until` | Parser.cs:175-178 | computes `Combinators.Until` |
| `Engine.UntilEq` | Parser.cs:180-183 | computes `Combinators.UntilEq` |
| `Engine.Many` | Parser.cs:185-204 | the do-while loop computes `Combinators.Many` |
| `Engine.ManyVoid` | Parser.cs:206-218 | the do-while loop computes `Combinators.ManyVoid` |
| `Engine.SepBy` | Parser.cs:228-253 | the do-while loop, with its separator check after the first element, computes `Combinators.SepBy` |
| `ParsableFiles.Advance` | ParsableFile.cs:104-112 | the line changes exactly on a line feed, which moves to the next line at column 0; any other character moves one column on |
| `ParsableFiles.PositionAfterCounts` | ParsableFile.cs:97-112 | after reading a text the line is 1 plus its line feeds and the column the characters since the last one |
| `ParsableFiles.PositionAfterStep` | ParsableFile.cs:104-112 | reading one more character advances the position by that character |
| `ParsableFiles.Layout` | ParsableFile.cs:91-116 | each character is tagged with the position the cursor holds just before reading it |
| `ParsableFiles.FileInput` | ParsableFile.cs:63-73 | a text presents one token per character, and the current position at offset `k` is the position after the first `k` characters |
| `ParsableFiles.ParsableFile.constructor` | ParsableFile.cs:43-45 | a fresh cursor is at line 1, column 0, offset 0, and valid |
| `ParsableFiles.ParsableFile.CurrentPosition` | ParsableFile.cs:63-66 | the position is the cursor's line and column, which is what the token stream reports at its offset |
| `ParsableFiles.ParsableFile.EndOfInput` | ParsableFile.cs:70-73 | true exactly when no character remains |
| `ParsableFiles.ParsableFile.NextToken` | ParsableFile.cs:91-116 | returns the next character at the position held before the read; offset grows by 1; a line feed bumps the line and resets the column, any other character bumps the column; the invariant is kept |
| `ParsableFiles.ParsableFile.PeekToken` | ParsableFile.cs:120-130 | returns the next character at the current position and changes nothing |
| `ParsableFiles.ParsableFile.CreateRestorePoint` | ParsableFile.cs:133-136 | the new snapshot holds the cursor's current line, column and offset |
| `ParsableFiles.FileRestorePoint.constructor` | ParsableFile.cs:19-25 | the snapshot copies line, column and offset of the file |
| `ParsableFiles.FileRestorePoint.Restore` | ParsableFile.cs:27-34 | writes the snapshot back into the file, leaving it valid |
| `ParsableFiles.FileRestorePoint.Dispose` | ParsableFile.cs:36-38 | leaves the file untouched |
| `ParsableFiles.CursorCounts` | ParsableFile.cs:97-112 | a valid cursor's line is 1 plus the line feeds consumed and its column the characters consumed since the last one |
| `ParsableFiles.RestoreTwice` | ParsableFile.cs:27-34 | restoring twice gives the state restoring once gives |
| `ParsableFiles.PeekThenNext` | ParsableFile.cs:120-130 | peeking shows exactly the character and position the following read returns |
| `ParsableFiles.ReplayAfterRestore` | ParsableFile.cs:27-34 | a character read, restored and read again is observed identically |
| `CharParsers.ToString` | CharParser.cs:21-25 | the string of the collected values in order, at the run's start position; failure stays failure |
| `CharParsers.RunScanned` | CharParser.cs:45-58 | `While` of a class mapped to a string succeeds at the start position with the maximal run of that class |
| `CharParsers.Scanner` | CharParser.cs:45-58 | the scanner of a class, at every offset, yields the maximal run of that class as a string |
| `CharParsers.Whitespace` | CharParser.cs:32-41 | never fails; every character is space, tab, LF or CR, and the next character is none of them |
| `CharParsers.Digits` | CharParser.cs:45-48 | never fails; the maximal run of '0'..'9' |
| `CharParsers.LowerCase` | CharParser.cs:50-53 | never fails; the maximal run of 'a'..'z' |
| `CharParsers.UpperCase` | CharParser.cs:55-58 | never fails; the maximal run of 'A'..'Z' |
| `CharParsers.MixedCaseParser` | CharParser.cs:60-63 | `Or(LowerCase, UpperCase)` as a parser equals the lower-case scan at every offset |
| `CharParsers.MixedCase` | CharParser.cs:60-63 | always the lower-case scan's result and cursor; the upper-case scan is never used |
| `CharParsers.MixedCaseAndDigits` | CharParser.cs:65-68 | likewise always the lower-case scan's result and cursor |
| `CharParsers.StrUntil` | CharParser.cs:70-76 | never fails; the characters up to the first that satisfies the predicate, none of them satisfying it |
| `CharParsers.MatchesAny` | CharParser.cs:80-88 | true exactly when the character is one of the given characters |
| `CharParsers.Contains` | CharParser.cs:80-88 | the membership loop with early return finds the character iff it is one of them |
| `CharParsers.AnyOf` | CharParser.cs:80-88 | the predicate holds of a character exactly when it is one of the given characters |
| `CharParsers.StrUntilAny` | CharParser.cs:78-89 | never fails; no returned character is in the set, and the scan stops just before the first member of the set or at the end |
| `Scenarios.TryKeepsConsumedInput` | Parser.cs:50-63 | on "ab", a Try of "any character then 'x'" fails with the cursor at 1; the documented Try leaves it at 0 |
| `Scenarios.BetweenIgnoresMissingClose` | Parser.cs:268-274 | on "(abc", Between '(' ')' over lower-case letters yields "abc" at line 1, column 1 although ')' is missing; the documented form fails |
| `Scenarios.SepByKeepsTrailingSeparator` | Parser.cs:237-249 | on "a,", letters separated by ',' give ["a"] with the cursor after the ',' |
| `Scenarios.WhitespaceConsumesAll` | CharParser.cs:32-41 | "   \t\n" is consumed whole as whitespace |
| `Scenarios.DigitsOnEmptyText` | CharParser.cs:45-48 | on an empty text the digit scan succeeds with the empty string at line 1, column 0 |
| `Scenarios.DigitsThenLowerCase` | Parser.cs:131-147 | on "123abc", Sequence of digits and lower-case letters gives "123" at column 0 and "abc" at column 3 |

## Left out

- Stream I/O. The `StreamReader`, its `Read`/`Peek`, and `BaseStream.Seek` in `Restore` are replaced by an in-memory text and an index. Character decoding, buffering and the difference between a byte offset and a character offset are not modelled.
- Exceptions. The null-reader check of the constructor disappears, because the text is a value. The end-of-input throws in `NextToken` and `PeekToken` become the precondition `!EndOfInput()`.
- Integer widths. `line` and `column` are `Int32` and `offset` is `Int64` in the source; the model uses unbounded integers, so overflow after 2^31 lines or columns is not modelled.
- Interfaces and the shared cursor.
  - `IParsable` and `IRestorePoint` have no behaviour of their own and are not modelled as types.
  - Instead of mutating an `IParsable`, the combinators thread the cursor's offset through `Input`.
  - `ParsableFile.NextToken` and `PeekToken` are proved to agree with the `Input` that `FileInput` builds. This ties the class to the combinators.
  - `Token`, `Peek`, `Try`, `Until` and `Between` are functions returning the new offset, rather than methods on a shared object.
- `Parser.Success()`/`Parser.Failure()` (Parser.cs:31-39) are one-line constructors of `VoidResult`, and the `Input` property (Parser.cs:21-24) is a getter. Neither is modelled separately.
- The `CurrentLine`, `CurrentColumn` and `CurrentOffset` getters (ParsableFile.cs:49-62) are read as the fields themselves.
- The `Located` constructor (Located.cs:50-54) and the `ParseResult(bool)`, `ParseResult()` and `ParseResult(Located<R>)` constructors (ParseResult.cs:38-41, 131-143) are datatype constructors. They store exactly their arguments by construction, so they carry no contract of their own.
- `using` and `IDisposable`: the disposal in `Try` has no effect, because `Dispose` is empty.
- Combinators.Many: requires that every success of the parser strictly advances the cursor. The source loops forever on a parser that succeeds without consuming input (Parser.cs:192-200), and the model does not describe that divergence.
- Engine.Many: requires the same progress condition as `Combinators.Many`.
- Combinators.ManyVoid: requires the same progress condition, for the same reason (Parser.cs:212-215).
- Engine.ManyVoid: requires the same progress condition as `Combinators.ManyVoid`.
- Combinators.SepBy: requires that each round of separator then element strictly advances the cursor when it succeeds. The source loops forever otherwise.
- Engine.SepBy: requires the same progress condition as `Combinators.SepBy`.
- Combinators.Round: the separator-then-element round has no contract of its own; `SepTailIsMany` and `SepBySpec` state what it does.
- Characters are Dafny `char`s, compared by code point. C# `Char` is a UTF-16 code unit, and surrogate pairs are not modelled.

## Findings

| source | as written | input that shows it | evidently intended | confidence | as-written member | corrected member |
|---|---|---|---|---|---|---|
| Parser.cs:50-63 | the restore point is created and disposed of, but `Restore()` is never called, so a failing parser keeps the input it consumed | text "ab", parser "any character then 'x'": Try fails with the cursor at offset 1 | on failure the input is reset to where it was before the parser ran (Parser.cs:42-46) | not executed | `Scenarios.TryKeepsConsumedInput` | `Combinators.TryRestoring` |
| Parser.cs:273 | `close().Return(x)` succeeds whatever `close` did, because `Return` ignores the receiver's flag (ParseResult.cs:97-100) | text "(abc", open '(', close ')', lower-case letters: Between succeeds with "abc" | success only if open, parser and close all succeed (Parser.cs:264-266) | not executed | `Scenarios.BetweenIgnoresMissingClose` | `Combinators.BetweenAll` |
