/**
 * The editor window. The console's width and height, which the source reads
 * from `Console` on every use, are parameters here, and drawing returns the
 * cells it would write instead of writing them.
 */
module Editors {
  import opened Reflow
  import opened Screen
  import opened Documents

  class Editor {
    var docToEdit: Document

    /** An editor over a given document (opening a fresh one through console prompts is not modelled). */
    constructor (documentToEdit: Document)
      ensures docToEdit == documentToEdit
    {
      docToEdit := documentToEdit;
    }

    /**
     * The document's display lines for a window `windowWidth` wide: the body
     * cut at `windowWidth - 4` columns. The source repeats the loops of
     * `Document.GetLines` here word for word; the model calls them. A window
     * narrower than 5 columns would make the cutting loop spin or throw.
     */
    method BodyToLines(windowWidth: int) returns (lines: seq<string>)
      requires windowWidth >= 5
      ensures lines == Lines(docToEdit.Body, MaxLineLength(windowWidth))
      ensures forall k :: 0 <= k < |lines| ==> |lines[k]| <= windowWidth - 4
    {
      var maxLineLength := windowWidth - 4;
      lines := docToEdit.GetLines(maxLineLength);
      LinesFacts(docToEdit.Body, maxLineLength);
    }

    /**
     * The cells `printInterface` writes, row by row and, within a row, left
     * to right: every cell `(x, y)` with `0 <= x < windowWidth` and
     * `0 <= y < consoleHeight - 2` exactly once, holding `CellAt(x, y, ...)`.
     */
    method PrintInterface(windowWidth: int, consoleHeight: int) returns (frame: seq<seq<Cell>>)
      requires windowWidth >= 5
      ensures |frame| == if WindowHeight(consoleHeight) > 0 then WindowHeight(consoleHeight) else 0
      ensures forall y :: 0 <= y < |frame| ==> |frame[y]| == windowWidth
      ensures forall y, x :: 0 <= y < |frame| && 0 <= x < windowWidth ==>
        frame[y][x] == CellAt(x, y, windowWidth, WindowHeight(consoleHeight), docToEdit.Title,
                              Lines(docToEdit.Body, MaxLineLength(windowWidth)))
    {
      var windowHeight := WindowHeight(consoleHeight);
      var title := docToEdit.Title;
      var bodyLines := BodyToLines(windowWidth);
      frame := [];
      var y := 0;
      while y < windowHeight
        invariant 0 <= y && (y <= windowHeight || y == 0)
        invariant |frame| == y
        invariant forall r :: 0 <= r < y ==> |frame[r]| == windowWidth
        invariant forall r, x :: 0 <= r < y && 0 <= x < windowWidth ==>
          frame[r][x] == CellAt(x, r, windowWidth, windowHeight, title, bodyLines)
      {
        var row := [];
        for x := 0 to windowWidth
          invariant |row| == x
          invariant forall c :: 0 <= c < x ==> row[c] == CellAt(c, y, windowWidth, windowHeight, title, bodyLines)
        {
          var colors := ColorsAt(x, y, windowWidth, windowHeight);
          var ch := if y == 0 && x < |WindowTitle(title)| then WindowTitle(title)[x]
                    else if BodyContainsCoords(bodyLines, x, y) then bodyLines[y - 2][x - 2]
                    else ' ';
          row := row + [Cell(ch, colors)];
        }
        frame := frame + [row];
        y := y + 1;
      }
    }
  }
}
