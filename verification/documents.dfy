/**
 * The document: a title, an author, a creation date and a body whose fields
 * the editor updates in place. `GetLines` runs the source's nested loops and
 * is proved to compute `Reflow.Lines`; `LinesToBody` runs the projection and
 * join and is proved to assign `Reflow.BodyOf`.
 */
module Documents {
  import opened Wrappers
  import opened Strings
  import opened Reflow

  /** A point in time. The model never looks inside it: it is only stored and copied. */
  datatype DateTime = DateTime(ticks: int)

  class Document {
    var Title: string
    var Author: string
    var CreationDate: DateTime
    var Body: string

    /**
     * A new document. A missing creation date (`None`, the source's `null`)
     * falls back to the clock, whose reading `now` is passed in.
     */
    constructor (title: string, author: string, creationDate: Option<DateTime>, now: DateTime, body: string)
      ensures Title == title && Author == author && Body == body
      ensures CreationDate == (if creationDate.Some? then creationDate.value else now)
    {
      Title := title;
      Author := author;
      CreationDate := if creationDate.Some? then creationDate.value else now;
      Body := body;
    }

    /** A copy of another document: all four fields are equal to the original's. */
    constructor Clone(documentToClone: Document)
      ensures Title == documentToClone.Title && Author == documentToClone.Author
      ensures CreationDate == documentToClone.CreationDate && Body == documentToClone.Body
    {
      Title := documentToClone.Title;
      Author := documentToClone.Author;
      CreationDate := documentToClone.CreationDate;
      Body := documentToClone.Body;
    }

    /**
     * The body cut into display lines of at most `lineLength` characters.
     * The source needs `lineLength >= 1`: at 0 the inner loop never advances
     * and below 0 `Substring` throws.
     */
    method GetLines(lineLength: int) returns (lines: seq<string>)
      requires lineLength >= 1
      ensures lines == Lines(Body, lineLength)
    {
      var paragraphs := Split(Body, '\n');
      lines := [];
      for k := 0 to |paragraphs|
        invariant lines + LinesOf(paragraphs[k..], lineLength) == LinesOf(paragraphs, lineLength)
      {
        var p := paragraphs[k];
        LinesOfStep(lines, paragraphs, k, lineLength);
        ghost var before := lines;
        if |p| > lineLength {
          var i: nat := 0;
          while i < |p|
            invariant lines + ChunksFrom(p, lineLength, i) == before + ChunksFrom(p, lineLength, 0)
            decreases |p| - i
          {
            var chunk := p[i..i + Min(lineLength, |p| - i)];
            ChunksStep(lines, p, lineLength, i);
            lines := lines + [chunk];
            i := i + lineLength;
          }
        } else {
          lines := lines + [p];
        }
      }
    }

    /**
     * Glues display lines back into the body: each line is followed by a
     * newline when it is narrower than `lineLength` and the first line equal
     * to it is not the last line; nothing else changes.
     */
    method LinesToBody(lines: seq<string>, lineLength: int)
      modifies this`Body
      ensures Body == BodyOf(lines, lineLength)
      ensures Title == old(Title) && Author == old(Author) && CreationDate == old(CreationDate)
    {
      var body := "";
      for i := 0 to |lines|
        invariant body + EmittedFrom(lines, lineLength, i) == BodyOf(lines, lineLength)
      {
        body := body + Emitted(lines, lineLength, i);
      }
      Body := body;
    }
  }
}
