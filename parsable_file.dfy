/**
 * The character cursor over an in-memory text: line, column and offset
 * advanced one character at a time, and restore points that write them back.
 */
module ParsableFiles {
  import opened Locations
  import opened Inputs

  /** The position after reading `c` at `p`: a line feed starts a new line. */
  function Advance(p: Position, c: char): (q: Position)
    ensures q.line == p.line <==> c != '\n'
    ensures c == '\n' ==> q.line == p.line + 1 && q.column == 0
    ensures c != '\n' ==> q.column == p.column + 1
  {
    if c == '\n' then Position(p.line + 1, 0) else Position(p.line, p.column + 1)
  }

  /** The position reached after reading `text` from a fresh cursor. */
  function PositionAfter(text: seq<char>): Position {
    if text == [] then Position(1, 0)
    else Advance(PositionAfter(text[..|text| - 1]), text[|text| - 1])
  }

  /**
   * The line is one more than the number of line feeds read, and the column
   * is the number of characters read since the last line feed.
   */
  lemma {:induction false} PositionAfterCounts(text: seq<char>)
    ensures PositionAfter(text).line == 1 + multiset(text)['\n']
    ensures 0 <= PositionAfter(text).column <= |text|
    ensures forall i :: |text| - PositionAfter(text).column <= i < |text| ==> text[i] != '\n'
    ensures PositionAfter(text).column < |text| ==> text[|text| - 1 - PositionAfter(text).column] == '\n'
  {
    if text != [] {
      var init := text[..|text| - 1];
      assert text == init + [text[|text| - 1]];
      PositionAfterCounts(init);
    }
  }

  /** Every character of `text` with the position the cursor reports for it. */
  function Layout(text: seq<char>): (tokens: seq<Located<char>>)
    ensures |tokens| == |text|
    ensures forall i :: 0 <= i < |text| ==> tokens[i] == Located(text[i], PositionAfter(text[..i]))
  {
    seq(|text|, i requires 0 <= i < |text| => Located(text[i], PositionAfter(text[..i])))
  }

  /** Reading one more character advances the position by that character. */
  lemma PositionAfterStep(text: seq<char>, k: nat)
    requires k < |text|
    ensures PositionAfter(text[..k + 1]) == Advance(PositionAfter(text[..k]), text[k])
  {
    assert text[..k + 1][..k] == text[..k];
  }

  /** The token stream a file over `text` presents to the parsers. */
  function FileInput(text: seq<char>): (input: Input<char>)
    ensures |input.tokens| == |text|
    ensures forall k :: 0 <= k <= |text| ==> input.CurrentPosition(k) == PositionAfter(text[..k])
  {
    assert text[..|text|] == text;
    Input(Layout(text), PositionAfter(text))
  }

  /** A cursor over `text`. */
  class ParsableFile {
    const text: seq<char>
    var line: int
    var column: int
    var offset: nat

    /** Line and column are those reached by reading the first `offset` characters. */
    ghost predicate Valid()
      reads this
    {
      offset <= |text| && Position(line, column) == PositionAfter(text[..offset])
    }

    /** A fresh cursor at line 1, column 0, offset 0. */
    constructor (text: seq<char>)
      ensures this.text == text
      ensures line == 1 && column == 0 && offset == 0
      ensures Valid()
    {
      this.text := text;
      line, column, offset := 1, 0, 0;
    }

    /** The position of the next unread character. */
    function CurrentPosition(): (p: Position)
      reads this
      ensures Valid() ==> p == FileInput(text).CurrentPosition(offset)
    {
      Position(line, column)
    }

    /** No character remains. */
    function EndOfInput(): (b: bool)
      reads this
      ensures b <==> FileInput(text).EndOfInput(offset)
    {
      offset >= |text|
    }

    /** Consumes the next character and returns it at the position held before the read. */
    method NextToken() returns (t: Located<char>)
      requires Valid() && !EndOfInput()
      modifies this
      ensures Valid()
      ensures t == Located(text[old(offset)], old(CurrentPosition()))
      ensures offset == old(offset) + 1
      ensures t.value == '\n' ==> line == old(line) + 1 && column == 0
      ensures t.value != '\n' ==> line == old(line) && column == old(column) + 1
      ensures (t, offset) == FileInput(text).NextToken(old(offset))
    {
      var pos := Position(line, column);
      var c := text[offset];
      PositionAfterStep(text, offset);
      assert FileInput(text).tokens[offset] == Located(c, pos);
      offset := offset + 1;
      if c == '\n' {
        line := line + 1;
        column := 0;
      } else {
        column := column + 1;
      }
      t := Located(c, pos);
    }

    /** Returns the next character and its position without consuming it. */
    method PeekToken() returns (t: Located<char>)
      requires Valid() && !EndOfInput()
      ensures t == Located(text[offset], CurrentPosition())
      ensures t == FileInput(text).PeekToken(offset)
    {
      var pos := Position(line, column);
      t := Located(text[offset], pos);
    }

    /** Snapshots line, column and offset. */
    method CreateRestorePoint() returns (rp: FileRestorePoint)
      requires Valid()
      ensures fresh(rp) && rp.file == this && rp.Valid()
      ensures rp.line == line && rp.column == column && rp.offset == offset
    {
      rp := new FileRestorePoint(this);
    }
  }

  /** A snapshot of a cursor's line, column and offset. */
  class FileRestorePoint {
    const file: ParsableFile
    const line: int
    const column: int
    const offset: nat

    /** The snapshot is a state the cursor can be in. */
    ghost predicate Valid() {
      offset <= |file.text| && Position(line, column) == PositionAfter(file.text[..offset])
    }

    constructor (file: ParsableFile)
      requires file.Valid()
      ensures this.file == file && Valid()
      ensures line == file.line && column == file.column && offset == file.offset
    {
      this.file := file;
      line := file.line;
      column := file.column;
      offset := file.offset;
    }

    /** Writes the snapshot back; the text is unchanged, so the cursor reads the same characters again. */
    method Restore()
      requires Valid()
      modifies file
      ensures file.line == line && file.column == column && file.offset == offset
      ensures file.Valid()
    {
      file.line := line;
      file.column := column;
      file.offset := offset;
    }

    /** Releasing the snapshot does nothing to the cursor. */
    method Dispose()
      ensures unchanged(file)
    {
    }
  }

  /**
   * A valid cursor has consumed `offset` characters; its line is one more than
   * the line feeds among them and its column counts those since the last one.
   */
  lemma CursorCounts(f: ParsableFile)
    requires f.Valid()
    ensures f.line == 1 + multiset(f.text[..f.offset])['\n']
    ensures 0 <= f.column <= f.offset
    ensures forall i :: f.offset - f.column <= i < f.offset ==> f.text[i] != '\n'
    ensures f.column < f.offset ==> f.text[f.offset - 1 - f.column] == '\n'
  {
    PositionAfterCounts(f.text[..f.offset]);
  }

  /** Restoring twice leaves the cursor as restoring once does. */
  method RestoreTwice(rp: FileRestorePoint)
    requires rp.Valid()
    modifies rp.file
    ensures rp.file.line == rp.line && rp.file.column == rp.column && rp.file.offset == rp.offset
  {
    rp.Restore();
    rp.Restore();
  }

  /** Peeking shows exactly the character and position the next read returns, and moves nothing. */
  method PeekThenNext(f: ParsableFile) returns (peeked: Located<char>, read: Located<char>)
    requires f.Valid() && !f.EndOfInput()
    modifies f
    ensures peeked == read
    ensures peeked.position == old(f.CurrentPosition())
    ensures f.offset == old(f.offset) + 1
  {
    peeked := f.PeekToken();
    read := f.NextToken();
  }

  /** A character read, rolled back and read again is observed identically. */
  method ReplayAfterRestore(f: ParsableFile) returns (first: Located<char>, again: Located<char>)
    requires f.Valid() && !f.EndOfInput()
    modifies f
    ensures first == again
    ensures f.offset == old(f.offset) + 1
  {
    var rp := f.CreateRestorePoint();
    first := f.NextToken();
    rp.Restore();
    rp.Dispose();
    again := f.NextToken();
  }
}
