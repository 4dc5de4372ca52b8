/**
 * What `Editor.printInterface` puts in each console cell, with the console
 * calls stripped: the character of cell `(x, y)` and the colours
 * `setConsoleColor(x, y)` selects for it, as functions of the window size,
 * the document title and the display lines.
 */
module Screen {
  import opened Strings
  import opened Reflow

  datatype ConsoleColor = Black | DarkBlue | DarkGray | White

  /** The background and foreground colour a cell is written in. */
  datatype Colors = Colors(background: ConsoleColor, foreground: ConsoleColor)

  /** One written cell: its character and colours. */
  datatype Cell = Cell(ch: char, colors: Colors)

  const TitleColors := Colors(DarkBlue, White)
  const BorderColors := Colors(DarkGray, Black)
  const PageColors := Colors(White, Black)

  /** The number of rows the editor draws: the console height less two. */
  function WindowHeight(consoleHeight: int): int { consoleHeight - 2 }

  /** The width display lines are cut to: the window width less the two-column margin on each side. */
  function MaxLineLength(windowWidth: int): int { windowWidth - 4 }

  /**
   * The colours of cell `(x, y)` in a window `width` wide and `height` high:
   * the title bar is row 0 whatever `x`; the border is the first and last
   * column and the second and last row below it; everything else is page.
   */
  function ColorsAt(x: int, y: int, width: int, height: int): (c: Colors)
    ensures c == TitleColors <==> y == 0
    ensures c == BorderColors <==> y != 0 && (x == 0 || x == width - 1 || y == 1 || y == height - 1)
    ensures c == PageColors <==> x != 0 && x != width - 1 && y != 0 && y != 1 && y != height - 1
  {
    if y == 0 then TitleColors
    else if x == 0 || x == width - 1 || y == 1 || y == height - 1 then BorderColors
    else PageColors
  }

  /** The text of the title bar. */
  function WindowTitle(title: string): (r: string)
    ensures |r| == |title| + 22
    ensures r[..2] == "  " && r[2..2 + |title|] == title
  {
    "  " + title + " - C# Word Processor"
  }

  /** Whether cell `(x, y)` falls on a character of the display lines, drawn from cell (2, 2) on. */
  predicate BodyContainsCoords(lines: seq<string>, x: int, y: int)
    ensures BodyContainsCoords(lines, x, y) ==> 0 <= y - 2 < |lines| && 0 <= x - 2 < |lines[y - 2]|
  {
    y - 2 >= 0 && x - 2 >= 0 && |lines| > y - 2 && |lines[y - 2]| > x - 2
  }

  /** The character written at cell `(x, y)`: a title character, a body character, or a space. */
  function CharAt(x: int, y: int, title: string, lines: seq<string>): (c: char)
    requires x >= 0
    ensures y == 0 ==> c == ' ' || c in WindowTitle(title)
    ensures y == 1 || y < 0 ==> c == ' '
    ensures y >= 2 && c != ' ' ==> y - 2 < |lines| && c in lines[y - 2]
    ensures 2 <= y < |lines| + 2 && 2 <= x < |lines[y - 2]| + 2 ==> c == lines[y - 2][x - 2]
  {
    if y == 0 && x < |WindowTitle(title)| then WindowTitle(title)[x]
    else if BodyContainsCoords(lines, x, y) then lines[y - 2][x - 2]
    else ' '
  }

  /** The cell written at `(x, y)`. */
  function CellAt(x: int, y: int, width: int, height: int, title: string, lines: seq<string>): Cell
    requires x >= 0
  {
    Cell(CharAt(x, y, title, lines), ColorsAt(x, y, width, height))
  }

  /** The characters of row `y`, left to right. */
  function RowChars(y: int, width: nat, title: string, lines: seq<string>): (r: string)
    ensures |r| == width
  {
    seq(width, x requires 0 <= x < width => CharAt(x, y, title, lines))
  }

  function Spaces(k: nat): (r: string)
    ensures |r| == k && forall i :: 0 <= i < k ==> r[i] == ' '
  {
    seq(k, _ => ' ')
  }

  /**
   * Display lines cut to the window's line length only reach columns
   * `2 .. width - 3`: body text starts at column 2, row 2, and never touches
   * the right border column.
   */
  lemma BodyInsideFrame(body: string, width: int, x: int, y: int)
    requires width >= 5
    ensures BodyContainsCoords(Lines(body, MaxLineLength(width)), x, y) ==> 2 <= x <= width - 3 && y >= 2
  {
    LinesFacts(body, MaxLineLength(width));
  }

  /** Below the title bar, the two outer columns on each side are always blank. */
  lemma SideColumnsBlank(body: string, title: string, width: int, x: int, y: int)
    requires width >= 5 && y >= 1
    requires x == 0 || x == 1 || x == width - 2 || x == width - 1
    ensures CharAt(x, y, title, Lines(body, MaxLineLength(width))) == ' '
  {
    BodyInsideFrame(body, width, x, y);
  }

  /**
   * Body text is drawn in page colours, except on the last row when the text
   * runs that far down, where it lands on the border.
   */
  lemma BodyTextColors(body: string, width: int, height: int, x: int, y: int)
    requires width >= 5
    requires BodyContainsCoords(Lines(body, MaxLineLength(width)), x, y)
    ensures ColorsAt(x, y, width, height) == (if y == height - 1 then BorderColors else PageColors)
  {
    BodyInsideFrame(body, width, x, y);
  }

  /** Row 0 shows the title text, cut at the window width or padded with spaces. */
  lemma TitleRow(title: string, lines: seq<string>, width: nat)
    ensures RowChars(0, width, title, lines)
         == if |WindowTitle(title)| >= width then WindowTitle(title)[..width]
            else WindowTitle(title) + Spaces(width - |WindowTitle(title)|)
  {
  }

  /** A row holding a line no wider than `width - 4`: two blanks, the line, blanks to the edge. */
  lemma TextRowOf(lines: seq<string>, title: string, width: int, y: int)
    requires width >= 5
    requires 2 <= y < |lines| + 2 && |lines[y - 2]| <= width - 4
    ensures RowChars(y, width, title, lines) == "  " + lines[y - 2] + Spaces(width - 2 - |lines[y - 2]|)
  {
    var line := lines[y - 2];
    var r := RowChars(y, width, title, lines);
    var e := "  " + line + Spaces(width - 2 - |line|);
    assert |r| == |e|;
    forall x | 0 <= x < width
      ensures r[x] == e[x]
    {
      if x < 2 {
      } else if x < |line| + 2 {
        assert BodyContainsCoords(lines, x, y);
      } else {
        assert !BodyContainsCoords(lines, x, y);
      }
    }
  }

  /**
   * Row `y` of the text shows display line `y - 2`: two blank columns, the
   * line, then blanks to the right edge (at least two of them).
   */
  lemma TextRow(body: string, title: string, width: int, y: int)
    requires width >= 5
    requires 2 <= y < |Lines(body, MaxLineLength(width))| + 2
    ensures var line := Lines(body, MaxLineLength(width))[y - 2];
      && |line| <= width - 4
      && RowChars(y, width, title, Lines(body, MaxLineLength(width)))
         == "  " + line + Spaces(width - 2 - |line|)
  {
    LinesFacts(body, MaxLineLength(width));
    TextRowOf(Lines(body, MaxLineLength(width)), title, width, y);
  }

  /** Row 1 and every row below the last display line are blank. */
  lemma BlankRow(title: string, lines: seq<string>, width: nat, y: int)
    requires y == 1 || y >= |lines| + 2
    ensures RowChars(y, width, title, lines) == Spaces(width)
  {
  }
}
