/**
 * The editor as the node trees see it: the current buffer's lines and the
 * cursor. Reading and replacing the text of a range and inserting a snippet
 * body at the cursor are lsputil's `getText`, `setText` and `linePatch`,
 * which are not modelled; they are passed in as functions.
 */
module Host {
  import opened Positions

  datatype HostLib = HostLib(
    getText: (seq<string>, Range) -> seq<string>,
    setText: (seq<string>, Range, seq<string>) -> seq<string>,
    linePatch: (seq<string>, Position, string) -> (seq<string>, Position))

  /** How a jump shows a node: the cursor moved to a position, or a range selected. */
  datatype Motion = MoveTo(position: Position) | Select(range: Range)

  class Buffer {
    var lines: seq<string>
    var cursor: Position
    const lib: HostLib

    constructor(lines: seq<string>, cursor: Position, lib: HostLib)
      ensures this.lines == lines && this.cursor == cursor && this.lib == lib
    {
      this.lines := lines;
      this.cursor := cursor;
      this.lib := lib;
    }

    /** `lsputil.getText(denops, 0, range)` */
    function GetText(range: Range): seq<string>
      reads this
    {
      lib.getText(lines, range)
    }

    /** `lsputil.setText(denops, 0, range, replacement)`: the cursor is left alone. */
    method SetText(range: Range, replacement: seq<string>)
      modifies this
      ensures lines == lib.setText(old(lines), range, replacement)
      ensures cursor == old(cursor)
    {
      lines := lib.setText(lines, range, replacement);
    }

    /** `lsputil.setCursor(denops, position)` */
    method SetCursor(position: Position)
      modifies this
      ensures cursor == position && lines == old(lines)
    {
      cursor := position;
    }

    /** `lsputil.linePatch(denops, 0, 0, text)`: the text inserted at the cursor, which the host may move. */
    method LinePatch(text: string)
      modifies this
      ensures (lines, cursor) == lib.linePatch(old(lines), old(cursor), text)
    {
      var patched := lib.linePatch(lines, cursor, text);
      lines, cursor := patched.0, patched.1;
    }

    /** The cursor sits on a line of the buffer, at most at its end. */
    predicate CursorOnLine()
      reads this
    {
      0 <= cursor.line < |lines| && 0 <= cursor.character <= |lines[cursor.line]|
    }

    /**
     * `lsputil.linePatch(denops, n, 0, "")`: the n characters before the
     * cursor are deleted and the cursor moves back over them; every other
     * line is left as it was.
     */
    method DeleteBeforeCursor(n: nat)
      requires CursorOnLine() && n <= cursor.character
      modifies this
      ensures CursorOnLine()
      ensures |lines| == |old(lines)| && cursor == Position(old(cursor.line), old(cursor.character) - n)
      ensures forall k :: 0 <= k < |lines| && k != cursor.line ==> lines[k] == old(lines[k])
      ensures var line := old(lines[cursor.line]); var c := old(cursor.character);
        lines[cursor.line] == line[..c - n] + line[c..]
    {
      var line := lines[cursor.line];
      var c := cursor.character;
      lines := lines[cursor.line := line[..c - n] + line[c..]];
      cursor := Position(cursor.line, c - n);
    }
  }
}
