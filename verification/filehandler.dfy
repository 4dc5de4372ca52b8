/**
 * The file-path check of the file handler. `IsValidFilePath` is the anchored,
 * case-insensitive pattern match written out as a recognizer over ASCII
 * characters; its partner is a small grammar of paths (`FilePath`, `Render`)
 * and a parser, with lemmas showing that the accepted strings are exactly
 * the rendered well-formed paths.
 */
module FileHandler {
  import opened Wrappers
  import opened Strings

  // ---------------------------------------------------------------------------
  // Character classes (ASCII)

  /** `\w`: a letter, a digit or an underscore. */
  predicate IsWordChar(c: char)
  {
    'a' <= c <= 'z' || 'A' <= c <= 'Z' || '0' <= c <= '9' || c == '_'
  }

  /** `\s`: space, tab, line feed, vertical tab, form feed, carriage return. */
  predicate IsSpaceChar(c: char)
  {
    c == ' ' || '\t' <= c <= '\r'
  }

  /** `[a-z_\-\s0-9\.]` under case-insensitive matching: a character allowed in a segment. */
  predicate IsNameChar(c: char)
  {
    'a' <= c <= 'z' || 'A' <= c <= 'Z' || c == '_' || c == '-' || IsSpaceChar(c) || '0' <= c <= '9' || c == '.'
  }

  /** `\.txt` under case-insensitive matching. */
  predicate IsTxt(e: string)
  {
    |e| == 4 && e[0] == '.' && (e[1] == 't' || e[1] == 'T') && (e[2] == 'x' || e[2] == 'X') && (e[3] == 't' || e[3] == 'T')
  }

  // ---------------------------------------------------------------------------
  // The recognizer

  /**
   * `(\\[a-z_\-\s0-9\.]+)+`: one or more segments, each a backslash followed
   * by at least one name character. Equivalently: a backslash first, no
   * backslash last, no two backslashes in a row, and only backslashes and
   * name characters.
   */
  predicate IsSegments(x: string)
  {
    && |x| >= 1 && x[0] == '\\' && x[|x| - 1] != '\\'
    && (forall i :: 0 <= i < |x| ==> x[i] == '\\' || IsNameChar(x[i]))
    && (forall i :: 0 <= i < |x| - 1 ==> !(x[i] == '\\' && x[i + 1] == '\\'))
  }

  /** `(?:[\w]\:|\\)` followed by the segments. */
  predicate ValidHead(h: string)
  {
    || (|h| >= 2 && IsWordChar(h[0]) && h[1] == ':' && IsSegments(h[2..]))
    || (|h| >= 1 && h[0] == '\\' && IsSegments(h[1..]))
  }

  /** The whole pattern up to `$`: a valid head and a final `.txt`. */
  predicate IsValidCore(t: string)
  {
    |t| >= 4 && IsTxt(t[|t| - 4..]) && ValidHead(t[..|t| - 4])
  }

  /**
   * `IsValidFilePath`: the pattern matches the whole string, where `$` may
   * also match just before one final line feed.
   */
  predicate IsValidFilePath(s: string)
    ensures IsValidFilePath(s) ==> |s| >= 7 && (s[0] == '\\' || (IsWordChar(s[0]) && s[1] == ':'))
    ensures IsValidFilePath(s) ==> '/' !in s
  {
    CoreFacts(s);
    NewlineFacts(s);
    IsValidCore(s) || (|s| >= 1 && s[|s| - 1] == '\n' && IsValidCore(s[..|s| - 1]))
  }

  /** The same facts for an accepted core followed by one more character. */
  lemma NewlineFacts(s: string)
    ensures |s| >= 1 && IsValidCore(s[..|s| - 1]) ==> |s| >= 7 && (s[0] == '\\' || (IsWordChar(s[0]) && s[1] == ':'))
    ensures |s| >= 1 && s[|s| - 1] != '/' && IsValidCore(s[..|s| - 1]) ==> '/' !in s
  {
    if |s| >= 1 && IsValidCore(s[..|s| - 1]) {
      CoreFacts(s[..|s| - 1]);
      assert forall i :: 0 <= i < |s| - 1 ==> s[i] == s[..|s| - 1][i];
    }
  }

  /** An accepted core is at least `\\a.txt` long, starts with a drive or a backslash, and has no '/'. */
  lemma CoreFacts(t: string)
    ensures IsValidCore(t) ==> |t| >= 7 && (t[0] == '\\' || (IsWordChar(t[0]) && t[1] == ':'))
    ensures IsValidCore(t) ==> '/' !in t
  {
    if IsValidCore(t) {
      var h := t[..|t| - 4];
      forall i | 0 <= i < |t|
        ensures t[i] != '/'
      {
        if i >= |t| - 4 {
          assert t[i] == t[|t| - 4..][i - (|t| - 4)];
        } else if |h| >= 1 && h[0] == '\\' && IsSegments(h[1..]) {
          assert t[i] == h[i];
          if i > 0 { assert h[1..][i - 1] == h[i]; }
        } else {
          assert t[i] == h[i];
          if i >= 2 { assert h[2..][i - 2] == h[i]; }
        }
      }
    }
  }

  // ---------------------------------------------------------------------------
  // The grammar of accepted paths

  /** A drive prefix `c:` or a bare leading backslash. */
  datatype Root = Drive(letter: char) | Rooted

  /** A path as the pattern reads it: root, segments, the `.txt` extension as spelled, and an optional final line feed. */
  datatype FilePath = FilePath(root: Root, segments: seq<string>, extension: string, trailingNewline: bool)

  predicate WellFormed(p: FilePath)
  {
    && (p.root.Drive? ==> IsWordChar(p.root.letter))
    && |p.segments| >= 1
    && (forall k :: 0 <= k < |p.segments| ==> p.segments[k] != [])
    && (forall k, c :: 0 <= k < |p.segments| && c in p.segments[k] ==> IsNameChar(c))
    && IsTxt(p.extension)
  }

  function RootText(r: Root): string
  {
    match r
    case Drive(c) => [c, ':']
    case Rooted => "\\"
  }

  /** The segments, each preceded by a backslash. */
  function SegmentsText(segments: seq<string>): string
  {
    "\\" + Join(segments, '\\')
  }

  function Core(p: FilePath): string
  {
    RootText(p.root) + SegmentsText(p.segments) + p.extension
  }

  /** The string a path is written as. */
  function Render(p: FilePath): string
  {
    Core(p) + (if p.trailingNewline then "\n" else "")
  }

  /** The path read out of text the pattern matches up to `$`. */
  function ParseCore(t: string, newline: bool): FilePath
    requires IsValidCore(t)
  {
    var h := t[..|t| - 4];
    var root := if h[0] == '\\' then Rooted else Drive(h[0]);
    var x := if h[0] == '\\' then h[1..] else h[2..];
    FilePath(root, Split(x[1..], '\\'), t[|t| - 4..], newline)
  }

  /** Reads a path back out of an accepted string; `None` for a rejected one. */
  function Parse(s: string): Option<FilePath>
  {
    if IsValidCore(s) then Some(ParseCore(s, false))
    else if IsValidFilePath(s) then Some(ParseCore(s[..|s| - 1], true))
    else None
  }

  // ---------------------------------------------------------------------------
  // Segments: the recognizer and the grammar agree

  lemma SegmentsCons(p: string, y: string)
    requires p != [] && forall c :: c in p ==> IsNameChar(c)
    requires IsSegments(y)
    ensures IsSegments("\\" + p + y)
  {
    var x := "\\" + p + y;
    forall i | 0 <= i < |x|
      ensures x[i] == '\\' || IsNameChar(x[i])
    {
      if 1 <= i <= |p| {
        assert x[i] == p[i - 1] && p[i - 1] in p;
      } else if i > |p| {
        assert x[i] == y[i - |p| - 1];
      }
    }
    forall i | 0 <= i < |x| - 1
      ensures !(x[i] == '\\' && x[i + 1] == '\\')
    {
      if i < |p| {
        assert x[i + 1] == p[i] && p[i] in p;
      } else if i == |p| {
        assert x[i] == p[i - 1] && p[i - 1] in p;
      } else {
        assert x[i] == y[i - |p| - 1] && x[i + 1] == y[i - |p|];
      }
    }
  }

  /** Well-formed segments render as text the recognizer accepts. */
  lemma {:induction false} SegmentsTextValid(segments: seq<string>)
    requires |segments| >= 1
    requires forall k :: 0 <= k < |segments| ==> segments[k] != []
    requires forall k, c :: 0 <= k < |segments| && c in segments[k] ==> IsNameChar(c)
    ensures IsSegments(SegmentsText(segments))
    decreases |segments|
  {
    var p := segments[0];
    assert forall c :: c in p ==> IsNameChar(c);
    if |segments| == 1 {
      assert SegmentsText(segments) == "\\" + p;
      var x := "\\" + p;
      forall i | 1 <= i < |x|
        ensures x[i] == p[i - 1] && IsNameChar(x[i])
      {
        assert p[i - 1] in p;
      }
    } else {
      var rest := segments[1..];
      assert forall k :: 0 <= k < |rest| ==> rest[k] == segments[k + 1];
      SegmentsTextValid(rest);
      assert SegmentsText(segments) == "\\" + p + SegmentsText(rest);
      SegmentsCons(p, SegmentsText(rest));
    }
  }

  /** Text the recognizer accepts as segments splits into well-formed segments that render back to it. */
  lemma SegmentsOfText(x: string)
    requires IsSegments(x)
    ensures var segments := Split(x[1..], '\\');
      && (forall k :: 0 <= k < |segments| ==> segments[k] != [])
      && (forall k, c :: 0 <= k < |segments| && c in segments[k] ==> IsNameChar(c))
      && SegmentsText(segments) == x
  {
    var rest := x[1..];
    assert forall i :: 0 <= i < |rest| ==> rest[i] == x[i + 1];
    SplitPiecesNonEmpty(rest, '\\');
    SplitPiecesFrom(rest, '\\');
    var segments := Split(rest, '\\');
    forall k, c | 0 <= k < |segments| && c in segments[k]
      ensures IsNameChar(c)
    {
      assert c in rest && c != '\\';
      var i :| 0 <= i < |rest| && rest[i] == c;
      assert x[i + 1] == c;
    }
    JoinSplit(rest, '\\');
    assert "\\" + rest == x;
  }

  // ---------------------------------------------------------------------------
  // Whole paths

  lemma CoreValid(p: FilePath)
    requires WellFormed(p)
    ensures var t := Core(p);
      && IsValidCore(t)
      && t[|t| - 4..] == p.extension
      && t[..|t| - 4] == RootText(p.root) + SegmentsText(p.segments)
  {
    SegmentsTextValid(p.segments);
    var h := RootText(p.root) + SegmentsText(p.segments);
    assert Core(p) == h + p.extension;
    assert (h + p.extension)[..|h|] == h;
    match p.root
    case Drive(c) =>
      assert h[2..] == SegmentsText(p.segments);
    case Rooted =>
      assert h[1..] == SegmentsText(p.segments);
  }

  /** Every rendered well-formed path is accepted. */
  lemma RenderValid(p: FilePath)
    requires WellFormed(p)
    ensures IsValidFilePath(Render(p))
  {
    CoreValid(p);
    if p.trailingNewline {
      assert Render(p)[..|Render(p)| - 1] == Core(p);
    } else {
      assert Render(p) == Core(p);
    }
  }

  lemma ParseCoreSound(t: string, newline: bool)
    requires IsValidCore(t)
    ensures WellFormed(ParseCore(t, newline)) && Core(ParseCore(t, newline)) == t
  {
    var h := t[..|t| - 4];
    var x := if h[0] == '\\' then h[1..] else h[2..];
    SegmentsOfText(x);
    var p := ParseCore(t, newline);
    if h[0] == '\\' {
      assert RootText(p.root) + x == h;
    } else {
      assert RootText(p.root) + x == h;
    }
    assert h + t[|t| - 4..] == t;
  }

  /** Every accepted string parses to a well-formed path that renders back to it. */
  lemma ParseSound(s: string)
    requires IsValidFilePath(s)
    ensures Parse(s).Some? && WellFormed(Parse(s).value) && Render(Parse(s).value) == s
  {
    if IsValidCore(s) {
      ParseCoreSound(s, false);
    } else {
      ParseCoreSound(s[..|s| - 1], true);
      assert s[..|s| - 1] + "\n" == s;
    }
  }

  lemma ParseCoreOfCore(p: FilePath)
    requires WellFormed(p)
    ensures IsValidCore(Core(p)) && ParseCore(Core(p), p.trailingNewline) == p
  {
    CoreValid(p);
    var t := Core(p);
    var h := t[..|t| - 4];
    var x := SegmentsText(p.segments);
    assert x[1..] == Join(p.segments, '\\');
    match p.root {
      case Drive(c) =>
        assert h[0] == c && h[2..] == x;
      case Rooted =>
        assert h[0] == '\\' && h[1..] == x;
    }
    forall k | 0 <= k < |p.segments|
      ensures '\\' !in p.segments[k]
    {
      assert !IsNameChar('\\');
    }
    SplitJoin(p.segments, '\\');
  }

  /** Parsing a rendered well-formed path gives the path back. */
  lemma ParseRender(p: FilePath)
    requires WellFormed(p)
    ensures Parse(Render(p)) == Some(p)
  {
    ParseCoreOfCore(p);
    var s := Render(p);
    if p.trailingNewline {
      assert s[|s| - 1] == '\n';
      assert !IsValidCore(s);
      assert s[..|s| - 1] == Core(p);
    } else {
      assert s == Core(p);
    }
  }

  /** The accepted strings are exactly the rendered well-formed paths. */
  lemma ValidIffRendered(s: string)
    ensures IsValidFilePath(s) <==> exists p :: WellFormed(p) && Render(p) == s
  {
    if IsValidFilePath(s) {
      ParseSound(s);
    }
    forall p | WellFormed(p) && Render(p) == s
      ensures IsValidFilePath(s)
    {
      RenderValid(p);
    }
  }

  /** Case is ignored: an upper-case drive, segments and extension are accepted. */
  lemma AcceptedUpperCase()
    ensures IsValidFilePath("C:\\Notes\\A.TXT")
  {
    var segments := ["Notes", "A"];
    var p := FilePath(Drive('C'), segments, ".TXT", false);
    assert WellFormed(p) by {
      forall k, c | 0 <= k < 2 && c in segments[k]
        ensures IsNameChar(c)
      {
        assert 'A' <= c <= 'z';
      }
    }
    assert SegmentsText(segments) == "\\Notes\\A" by {
      assert segments[1..] == ["A"];
    }
    assert Render(p) == "C:" + "\\Notes\\A" + ".TXT";
    RenderValid(p);
  }

  /** Two leading backslashes are the rooted prefix followed by one segment. */
  lemma AcceptedDoubleBackslash()
    ensures IsValidFilePath("\\\\a.txt")
  {
    var p := FilePath(Rooted, ["a"], ".txt", false);
    assert Render(p) == "\\" + "\\" + "a" + ".txt" == "\\\\a.txt";
    RenderValid(p);
  }

  /** One line feed after `.txt` is allowed. */
  lemma AcceptedTrailingNewline()
    ensures IsValidFilePath("C:\\a.txt\n")
  {
    var p := FilePath(Drive('C'), ["a"], ".txt", true);
    assert Render(p) == "C:" + "\\" + "a" + ".txt" + "\n" == "C:\\a.txt\n";
    RenderValid(p);
  }

  /** An empty segment, a doubled backslash, a forward slash and a single leading backslash are rejected. */
  lemma RejectedSeparators()
    ensures !IsValidFilePath("C:\\.txt")
    ensures !IsValidFilePath("C:\\a\\\\b.txt")
    ensures !IsValidFilePath("C:/a.txt")
    ensures !IsValidFilePath("\\a.txt")
  {
    assert "C:\\.txt"[..3][2..] == "\\";
    var d := "C:\\a\\\\b.txt"[..7][2..];
    assert d[2] == '\\' && d[3] == '\\';
    assert "C:/a.txt"[..4][2..][0] == '/';
    assert "\\a.txt"[..2][1..][0] == 'a';
  }

  /** A drive prefix is one character, and the path must end in `.txt`. */
  lemma RejectedPrefixAndExtension()
    ensures !IsValidFilePath("AB:\\x.txt")
    ensures !IsValidFilePath("C:\\a.doc")
    ensures !IsValidFilePath("C:\\a.txt.bak")
  {
    assert "AB:\\x.txt"[..5][1] == 'B';
    assert "C:\\a.doc"[4..] == ".doc";
    assert "C:\\a.txt.bak"[8..] == ".bak";
  }
}
