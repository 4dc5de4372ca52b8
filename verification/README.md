# A model of the C# console word processor

The word processor holds one `Document`: a title, an author, a creation date
and a body of text whose paragraphs are separated by `'\n'`. The `Editor` cuts
the body into display lines no wider than the console window less a margin.
It then paints the window cell by cell:
- a title bar on row 0;
- a grey border down the outer columns and along row 1 and the last row;
- the text on a white page from row 2 and column 2.

`Document.LinesToBody` glues display lines back into a body. The helper
library adds:
- a strict range test (`IsBetween`);
- an in-place move of a list element;
- an English listing of strings with a conjunction;
- a conversion from `TitleCase`/`camelCase` identifiers to words;
- the choice between "a" and "an".

The file handler accepts a Windows-style path to a `.txt` file.

The Dafny modules follow the source files:

| module | file | models |
|---|---|---|
| `Wrappers` | `wrappers.dfy` | `Option` (a `null` result or a thrown exception) and `Outcome` (a method that may throw) |
| `Strings` | `strings.dfy` | the .NET string operations the core uses: `IndexOf`, `Split(char)`, `String.Join`; their round trips |
| `Reflow` | `reflow.dfy` | what `GetLines` computes (`Lines`) and what `LinesToBody` assigns (`BodyOf`), as functions, with their properties |
| `Documents` | `documents.dfy` | `class Document`: both constructors, `GetLines` (the nested loops), `LinesToBody` (the loop over the lines) |
| `Screen` | `screen.dfy` | the per-cell decisions of `printInterface`: colours, the character shown, whole rows |
| `Editors` | `editors.dfy` | `class Editor`: `bodyToLines` and `printInterface`, which returns the painted frame as rows of cells |
| `ExtensionsAndHelpers` | `helpers.dfy` | `IsBetween`, `MoveElement` over a `List` class, `ToString(conjunction)`, `FromTitleOrCamelCase`, `IndefiniteArticle` |
| `FileHandler` | `filehandler.dfy` | `IsValidFilePath` as an ASCII recognizer, a grammar of accepted paths and a parser |

`GetLines`, `LinesToBody`, `PrintInterface` and `ToString` are loops in the
source and loops here. Each is proved to compute a function: `Lines`,
`BodyOf`, `CellAt` and `Listing`. The properties are proved about those
functions.

The window's width, the console's height and the clock's reading are
parameters. The painted window is returned as `frame[y][x]`, a `Cell` of a
character and its background/foreground colours.

Two facts about the layout are worth knowing.
- The positional join of the display lines (`Reflow.Unreflow`) gives the
  body back if and only if no paragraph except the last is a positive
  multiple of the line length wide. `Reflow.UnreflowRoundTrip` proves this.
  Such a paragraph's last display line is exactly `lineLength` wide, so no
  newline is put back after it. This follows from the design: the display
  lines do not record where the paragraphs ended.
- `LinesToBody` as written is only proved to restore the body under a
  sufficient condition: no full-width paragraph except the last, and the
  last line not a short repeat (`Reflow.LinesToBodyRoundTrip`). That
  condition is not necessary. `Reflow.FullWidthParagraphLosesNewline` shows
  `"abcde\nf"` at width 5 coming back as `"abcdef"`. But
  `Reflow.StrayNewlineRestoresBody` shows `"abcde\n\n"` coming back whole:
  the stray newline of the next point stands in for the lost one.
- The source's join decides per line with `lines.IndexOf(l)`, which finds the
  first equal line. That adds one stray newline when the last line is short
  and repeats an earlier line (see Findings).

## Model

| member | source | states |
|---|---|---|
| `Documents.Document.constructor` | src/Document.cs:15-21 | title, author and body are stored; a missing creation date becomes the clock's reading |
| `Documents.Document.Clone` | src/Document.cs:23-29 | the copy has all four fields equal to the original's |
| `Documents.Document.GetLines` | src/Document.cs:41-60 | the nested loops return exactly `Reflow.Lines(Body, lineLength)` |
| `Documents.Document.LinesToBody` | src/Document.cs:62-66 | the body becomes `BodyOf(lines, lineLength)`: each line, plus a newline when it is short and its first occurrence is not the last line; the other fields are unchanged |
| `Reflow.LinesOfStep` | src/Document.cs:45-58 | one pass of the paragraph loop appends that paragraph's display lines |
| `Reflow.ChunksStep` | src/Document.cs:49-52 | one pass of the chunk loop appends `Substring(i, Min(n, len - i))` and moves on by `n` |
| `Reflow.ChunksFacts` | src/Document.cs:49-52 | the chunks of a long paragraph are all `n` wide except a non-empty last one; the last is `n` wide exactly when the length is a multiple of `n`; together they spell the paragraph |
| `Reflow.ParagraphLinesFacts` | src/Document.cs:47-57 | a paragraph gives at least one line, each at most `n` wide; a short paragraph is its own line; a long one gives two or more lines whose concatenation is the paragraph; the last line is narrower than `n` exactly when the paragraph is not full-width |
| `Reflow.LinesOfFacts` | src/Document.cs:45-58 | at least one line per paragraph, none wider than `n`, and no character lost or added |
| `Reflow.LinesFacts` | src/Document.cs:41-60 | `GetLines` returns at least one line and at least one per paragraph, each at most `lineLength` wide; concatenated they are the body without its newlines |
| `Reflow.EmptyBodyLines` | src/Document.cs:43-56 | an empty body gives one empty line |
| `Reflow.NarrowParagraphsAreLines` | src/Document.cs:54-57 | when no paragraph is wider than `n`, the display lines are the paragraphs themselves |
| `Reflow.EmittedBeforeLast` | src/Document.cs:64 | before the last line, the `IndexOf` test behaves positionally |
| `Reflow.EmittedLast` | src/Document.cs:64 | at the last line, a newline is added exactly when the line is short and repeats an earlier line |
| `Reflow.EmittedFromIsUnreflow` | src/Document.cs:64-65 | the emitted suffix from line `i` is the positional join of those lines, plus the stray newline of the repeated-last-line case |
| `Reflow.AsWrittenJoin` | src/Document.cs:64-65 | `LinesToBody` as written equals the positional join, plus one newline exactly when the last line is short and repeated |
| `Reflow.RepeatedLastLineGetsNewline` | src/Document.cs:64-65 | `"a\na"` at width 5 gives lines `["a", "a"]`, which `LinesToBody` turns into `"a\na\n"`, not `"a\na"` |
| `Reflow.UnreflowWrapped` | src/Document.cs:64-65 | lines of full width are glued with no newline between them |
| `Reflow.UnreflowLinesOf` | src/Document.cs:41-66 | joining the display lines of some paragraphs puts a newline back after each paragraph that is not full-width |
| `Reflow.RejoinIsJoin` | src/Document.cs:41-66 | that join restores the paragraphs with their newlines if and only if no paragraph but the last is full-width |
| `Reflow.RejoinShorter` | src/Document.cs:41-66 | the join never makes the text longer than the original |
| `Reflow.UnreflowRoundTrip` | src/Document.cs:41-66 | the positional join of `GetLines` gives back the body if and only if no paragraph but the last is a positive multiple of `lineLength` wide |
| `Reflow.LinesToBodyRoundTrip` | src/Document.cs:41-66 | `LinesToBody(GetLines(n), n)` restores the body when no paragraph but the last is full-width and the last line is not a short repeat |
| `Reflow.FullWidthParagraphLines` | src/Document.cs:41-60 | `"abcde\nf"` at width 5 is shown as `["abcde", "f"]` |
| `Reflow.FullWidthParagraphLosesNewline` | src/Document.cs:62-66 | those lines are joined back as `"abcdef"`: the newline after a full-width paragraph is lost |
| `Reflow.Emitted` | src/Document.cs:64 | each line is emitted as itself or, only when narrower than `lineLength`, followed by a newline |
| `Reflow.StrayNewlineLines` | src/Document.cs:41-60 | `"abcde\n\n"` at width 5 is shown as `["abcde", "", ""]` |
| `Reflow.StrayNewlineRestoresBody` | src/Document.cs:41-66 | that body has a full-width paragraph before the last, yet `LinesToBody` gives it back whole, so the round-trip condition is sufficient, not necessary |
| `Editors.Editor.constructor` | src/Editor.cs:12-17 | the editor edits the document it is given |
| `Editors.Editor.BodyToLines` | src/Editor.cs:24-44 | the display lines of the document at `windowWidth - 4`, each at most that wide |
| `Editors.Editor.PrintInterface` | src/Editor.cs:46-91 | the frame has `consoleHeight - 2` rows (none if that is not positive) of `windowWidth` cells, and cell `(x, y)` holds `CellAt`: the colour `setConsoleColor` picks and the character the three-way branch writes |
| `Screen.ColorsAt` | src/Editor.cs:48-62 | row 0 is the title bar whatever the column; the outer columns, row 1 and the last row are border; everything else is page; each as an if-and-only-if |
| `Screen.WindowTitle` | src/Editor.cs:64 | the title bar text is 22 characters longer than the title, and the title follows two leading spaces |
| `Screen.BodyContainsCoords` | src/Editor.cs:72-73 | a cell passes the test only where `bodyLines[y - 2][x - 2]` exists |
| `Screen.CharAt` | src/Editor.cs:75-86 | row 0 shows a title character or a space; row 1 only spaces; from row 2, a non-space comes from display line `y - 2`, and every character of a display line shows at its cell two rows down and two columns right |
| `Screen.BodyInsideFrame` | src/Editor.cs:72-73 | body text only reaches columns `2 .. width - 3` and rows from 2, never the side borders |
| `Screen.SideColumnsBlank` | src/Editor.cs:72-86 | below the title, the two outer columns on each side always show a space |
| `Screen.BodyTextColors` | src/Editor.cs:48-62 | a body character is on the page colours, except on the last row, which is border |
| `Screen.TitleRow` | src/Editor.cs:64-78 | row 0 is the window title, cut at the width or padded with spaces |
| `Screen.TextRowOf` | src/Editor.cs:72-86 | a row with a display line shows two spaces, the line, then spaces to the edge |
| `Screen.TextRow` | src/Editor.cs:24-86 | row `y` shows display line `y - 2` of the body after two spaces, padded with at least two spaces |
| `Screen.BlankRow` | src/Editor.cs:72-86 | row 1 and every row below the last display line are all spaces |
| `ExtensionsAndHelpers.CompareTo` | src/ExtensionsAndHelpers.cs:54 | `IComparable.CompareTo` on integers: negative, zero or positive as the first is less, equal or greater |
| `ExtensionsAndHelpers.IsBetween` | src/ExtensionsAndHelpers.cs:52-55 | true exactly when `min < num < max`: both ends excluded |
| `ExtensionsAndHelpers.List.constructor` | src/ExtensionsAndHelpers.cs:57 | a list holding the given items |
| `ExtensionsAndHelpers.List.RemoveAt` | src/ExtensionsAndHelpers.cs:71 | `List.RemoveAt`: the item at the index is taken out, the rest keep their order |
| `ExtensionsAndHelpers.List.Insert` | src/ExtensionsAndHelpers.cs:72 | `List.Insert`: the item is put at the index, the rest keep their order |
| `ExtensionsAndHelpers.MovedIndex` | src/ExtensionsAndHelpers.cs:61-70 | the new index is the old one plus `distance`, clamped into the list |
| `ExtensionsAndHelpers.MoveElement` | src/ExtensionsAndHelpers.cs:57-78 | a present element is moved as `Moved` says; an absent one throws "List does not contain element." and leaves the list unchanged |
| `ExtensionsAndHelpers.InsertThenRemove` | src/ExtensionsAndHelpers.cs:71-72 | inserting then removing at the same index gives the list back; the multiset gains exactly the item |
| `ExtensionsAndHelpers.RemoveMultiset` | src/ExtensionsAndHelpers.cs:71 | removing an index takes exactly that item out of the multiset |
| `ExtensionsAndHelpers.MovedFacts` | src/ExtensionsAndHelpers.cs:57-78 | moving keeps the length and the multiset of items; the element ends at the clamped index; the other items keep their relative order |
| `ExtensionsAndHelpers.MoveByZero` | src/ExtensionsAndHelpers.cs:57-78 | moving by zero changes nothing |
| `ExtensionsAndHelpers.CommaPrefix` | src/ExtensionsAndHelpers.cs:85-90 | with three or more items, the loop has written the items so far joined by `", "` and followed by `", "` |
| `ExtensionsAndHelpers.PiecesOfTwo` | src/ExtensionsAndHelpers.cs:85-90 | two items become `a conjunction b` with no comma |
| `ExtensionsAndHelpers.PiecesOfMany` | src/ExtensionsAndHelpers.cs:85-90 | three or more items become a comma list with `", " + conjunction + " "` before the last (serial comma) |
| `ExtensionsAndHelpers.PiecesAreListing` | src/ExtensionsAndHelpers.cs:85-90 | what the loop writes is `Listing` |
| `ExtensionsAndHelpers.ToString` | src/ExtensionsAndHelpers.cs:80-92 | `null` for a missing or empty source; otherwise the listing: one item alone, two joined by the conjunction, more with commas and the conjunction before the last |
| `ExtensionsAndHelpers.CommaJoinEnds` | src/ExtensionsAndHelpers.cs:85-90 | a comma list starts with the first item and ends with the last |
| `ExtensionsAndHelpers.ListingEnds` | src/ExtensionsAndHelpers.cs:80-92 | the output starts with the first item and ends with the last |
| `ExtensionsAndHelpers.ThreeItems` | src/ExtensionsAndHelpers.cs:85-90 | `[a, b, c]` becomes `a, b, conjunction c` |
| `ExtensionsAndHelpers.ToLowerAscii` | src/ExtensionsAndHelpers.cs:96 | a capital letter becomes its small letter; any other character is kept |
| `ExtensionsAndHelpers.ToLower` | src/ExtensionsAndHelpers.cs:96 | the length is kept and no capital letter is left |
| `ExtensionsAndHelpers.RemoveUnderscores` | src/ExtensionsAndHelpers.cs:97 | no underscore is left, no character is added, and a string without underscores is kept |
| `ExtensionsAndHelpers.ToLowerAppend` | src/ExtensionsAndHelpers.cs:96 | lower-casing works character by character |
| `ExtensionsAndHelpers.RemoveUnderscoresAppend` | src/ExtensionsAndHelpers.cs:97 | removing underscores works character by character |
| `ExtensionsAndHelpers.PassesAreWords` | src/ExtensionsAndHelpers.cs:96-97 | the two replacements and the lower-casing compute `Words`: a capital becomes a space and its small letter, an underscore disappears, anything else is kept |
| `ExtensionsAndHelpers.WordsEmpty` | src/ExtensionsAndHelpers.cs:96-98 | nothing is left exactly when the source is empty or only underscores |
| `ExtensionsAndHelpers.FromTitleOrCamelCase` | src/ExtensionsAndHelpers.cs:94-100 | a returned string is non-empty and holds no underscore and no capital letter |
| `ExtensionsAndHelpers.FromTitleOrCamelCaseIntended` | src/ExtensionsAndHelpers.cs:98 | throws exactly when the as-written version does; otherwise returns the as-written result or that result without its leading space |
| `ExtensionsAndHelpers.FromTitleOrCamelCaseSpec` | src/ExtensionsAndHelpers.cs:94-100 | throws (`None`) exactly when the source is empty or only underscores; otherwise returns `Words(source)` |
| `ExtensionsAndHelpers.LeadingSpaceKept` | src/ExtensionsAndHelpers.cs:98 | as written, `"MyVar"` gives `" my var"`; with the removal the line evidently intends, `"my var"` |
| `ExtensionsAndHelpers.WordsLeadingSpace` | src/ExtensionsAndHelpers.cs:96-97 | for a source with no spaces, a leading space in the words is followed by a non-space |
| `ExtensionsAndHelpers.IntendedHasNoLeadingSpace` | src/ExtensionsAndHelpers.cs:98-99 | with the intended removal, a source with no spaces never gives a result starting with a space |
| `ExtensionsAndHelpers.IndefiniteArticle` | src/ExtensionsAndHelpers.cs:102-106 | an empty noun throws (`None`); otherwise "an" exactly when the first character is one of `AEIOUaeiou`, else "a" |
| `Strings.IndexOf` | src/Document.cs:64 | -1 exactly when absent; otherwise an index holding the value with no earlier occurrence |
| `Strings.Split` | src/Document.cs:43 | at least one piece, and no piece contains the separator |
| `Strings.JoinSplit` | src/Document.cs:43 | the pieces joined with the separator give the string back |
| `Strings.SplitJoin` | src/Document.cs:43 | splitting separator-free pieces joined with the separator gives the pieces back |
| `Strings.ConcatSplit` | src/Document.cs:43 | the pieces concatenated are the string without its separators |
| `Strings.SplitPiecesNonEmpty` | src/FileHandler.cs:12 | a string with no separator at its end and none doubled splits into non-empty pieces after the first |
| `Strings.SplitPiecesFrom` | src/FileHandler.cs:12 | every character of every piece comes from the string |
| `FileHandler.IsValidFilePath` | src/FileHandler.cs:10-16 | an accepted path is at least 7 characters, starts with a word character and `:` or with a backslash, and contains no `/` |
| `FileHandler.CoreFacts` | src/FileHandler.cs:12 | the same facts for text matching the pattern up to `$` |
| `FileHandler.NewlineFacts` | src/FileHandler.cs:12 | the same facts for such text followed by a final line feed |
| `FileHandler.SegmentsCons` | src/FileHandler.cs:12 | a backslash and a non-empty name in front of valid segments are valid segments |
| `FileHandler.SegmentsTextValid` | src/FileHandler.cs:12 | non-empty names of allowed characters, each after a backslash, match `(\\[a-z_\-\s0-9\.]+)+` |
| `FileHandler.SegmentsOfText` | src/FileHandler.cs:12 | text matching the segments part splits into non-empty names of allowed characters that render back to it |
| `FileHandler.CoreValid` | src/FileHandler.cs:12 | a well-formed path without its final line feed matches the pattern up to `$` |
| `FileHandler.RenderValid` | src/FileHandler.cs:10-16 | every well-formed path renders to a string `IsValidFilePath` accepts |
| `FileHandler.ParseCoreSound` | src/FileHandler.cs:12 | text matching up to `$` parses to a well-formed path that renders back to it |
| `FileHandler.ParseSound` | src/FileHandler.cs:10-16 | every accepted string parses to a well-formed path that renders back to it |
| `FileHandler.ParseCoreOfCore` | src/FileHandler.cs:12 | parsing a rendered path's text gives the path back |
| `FileHandler.ParseRender` | src/FileHandler.cs:10-16 | parsing a rendered well-formed path gives the path back |
| `FileHandler.ValidIffRendered` | src/FileHandler.cs:10-21 | `IsValidFilePath` is true exactly for the renderings of well-formed paths: a one-character word prefix and `:`, or a backslash; one or more backslash-led non-empty names; `.txt` in any case; at most one final line feed |
| `FileHandler.AcceptedUpperCase` | src/FileHandler.cs:12 | matching ignores case: `C:\Notes\A.TXT` is accepted |
| `FileHandler.AcceptedDoubleBackslash` | src/FileHandler.cs:12 | `\\a.txt` is accepted |
| `FileHandler.AcceptedTrailingNewline` | src/FileHandler.cs:12-13 | `C:\a.txt` followed by a line feed is accepted, because `$` matches before a final line feed |
| `FileHandler.RejectedSeparators` | src/FileHandler.cs:12 | `C:\.txt`, `C:\a\\b.txt`, `C:/a.txt` and `\a.txt` are rejected |
| `FileHandler.RejectedPrefixAndExtension` | src/FileHandler.cs:12 | `AB:\x.txt`, `C:\a.doc` and `C:\a.txt.bak` are rejected |

## Left out

- Console input and output: `PromptLine`, `PromptKey`, `PromptLineLoop`, `Document.Init`, `Editor.Run`, and the `Console.Write`/colour calls themselves. `printInterface` returns the frame it would paint instead.
- The editor constructor's branch for a `null` document: it calls `Document.Init`, which is console input.
- The `PromptKey` message that `IsValidFilePath` shows on rejection: console output.
- `IsValidDirectory`, `Open` and `Save`: file-system calls.
- The random helpers: randomness.
- `DateTime.Now` is not modelled: the constructor takes the clock's reading `now` as a parameter, and `DateTime` is a value the model only stores and copies.
- Documents.Document.GetLines: requires `lineLength >= 1`. On any non-empty paragraph the source loops forever at 0 and `Substring` throws below 0. A body of only empty paragraphs does terminate: one `""` per paragraph at 0, and no lines at all below 0. The requires excludes those bodies too.
- Editors.Editor.BodyToLines: requires `windowWidth >= 5` for the same reason, since it cuts at `windowWidth - 4`. `PrintInterface` requires it too.
- Documents.Document.GetLines: lengths and cuts count Unicode scalar values (Dafny `char`), not the UTF-16 code units of .NET `Length` and `Substring`. Text outside the Basic Multilingual Plane is measured and cut differently, and the source can cut a surrogate pair in two, which the model cannot express.
- Documents.Document.LinesToBody: the width test `l.Length < lineLength` counts Unicode scalar values, not UTF-16 code units, so it differs from the source on text outside the Basic Multilingual Plane.
- Editors.Editor.BodyToLines: counts and cuts in Unicode scalar values, not UTF-16 code units, as for `GetLines`.
- Editors.Editor.PrintInterface: a cell holds one Unicode scalar value, while the source writes one UTF-16 code unit per cell, so a character outside the Basic Multilingual Plane takes one cell here and two there, and the source can write half a surrogate pair.
- Editors.Editor.BodyToLines calls `Document.GetLines` rather than repeating the same loop, as the source does. The two loops are identical apart from the variable name.
- Integers are unbounded: 32-bit overflow of `oldIndex + distance` in `MoveElement` and of lengths and indices is not modelled.
- `null` is not modelled for strings, the conjunction, lists or documents. `ToString`'s `null` source is `None`.
- ExtensionsAndHelpers.IsBetween: modelled on integers only, not on every `IComparable`.
- ExtensionsAndHelpers.FromTitleOrCamelCase: ASCII only, and an invariant, non-Turkic culture is assumed. `ToLower` follows the current culture: under Turkish or Azerbaijani, `"I"` becomes a dotless `'ı'`, which the model does not produce. Culture-sensitive `ToLower` of non-ASCII letters is not modelled either. Exceptions are `None`.
- FileHandler.IsValidFilePath: an invariant, non-Turkic culture is assumed. `RegexOptions.IgnoreCase` compares `I` and `i` by the current culture, so under Turkish or Azerbaijani a capital `I` in a name may not match `[a-z]`. The model always accepts it.
- FileHandler.IsValidFilePath: ASCII only. The .NET classes `\w` and `\s` also accept non-ASCII letters, digits and spaces, and case-insensitive `[a-z]` also accepts a few non-ASCII letters such as the Kelvin sign. The model rejects all of those.
- ExtensionsAndHelpers.MoveElement: the thrown exception is the `Fail` outcome, not a transfer of control.

## Findings

| source | as written | input that shows it | evidently intended | confidence | as-written member | corrected member |
|---|---|---|---|---|---|---|
| src/Document.cs:64 | a line gets a newline when `lines.IndexOf(l) < lines.Count - 1`, and `IndexOf` finds the first equal line | `GetLines` of `"a\na"` at width 5 gives `["a", "a"]`; `LinesToBody` makes `"a\na\n"` | a newline after each short line that is not the last by position, giving `"a\na"` | high (proved; not executed) | `Reflow.RepeatedLastLineGetsNewline` | `Reflow.UnreflowRoundTrip` |
| src/ExtensionsAndHelpers.cs:98 | the leading space is removed from a temporary `List<char>`, and the result is discarded | `"MyVar"` gives `" my var"` | the leading space removed: `"my var"` | high (proved; not executed) | `ExtensionsAndHelpers.LeadingSpaceKept` | `ExtensionsAndHelpers.IntendedHasNoLeadingSpace` |

For the first row, `Reflow.AsWrittenJoin` proves the exact difference for all
inputs: the as-written join is `Reflow.Unreflow`, the positional join, plus
one newline exactly when `Reflow.ShortLastLineRepeated` holds.
`Documents.Document.LinesToBody` models the code as written.

For the second row, `FromTitleOrCamelCase` is the code as written and
`FromTitleOrCamelCaseIntended` the correction.
