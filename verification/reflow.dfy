/**
 * The line layout of a document body: how `Document.GetLines` cuts the body
 * into display lines of at most `n` characters and how `Document.LinesToBody`
 * glues display lines back into a body. Everything here is a function of
 * values; the class in module Documents runs the loops and is proved to
 * compute these functions.
 */
module Reflow {
  import opened Strings

  function Min(a: int, b: int): int { if a < b then a else b }

  /**
   * The pieces the `for` loop cuts from a paragraph longer than `n`, from
   * offset `i` on: `p.Substring(i, Math.Min(n, p.Length - i))`, then `i += n`.
   */
  function ChunksFrom(p: string, n: int, i: nat): seq<string>
    requires n >= 1
    decreases |p| - i
  {
    if i >= |p| then [] else [p[i..Min(i + n, |p|)]] + ChunksFrom(p, n, i + n)
  }

  /** The display lines of one paragraph: hard-cut into chunks when longer than `n`, else the paragraph itself. */
  function ParagraphLines(p: string, n: int): seq<string>
    requires n >= 1
  {
    if |p| > n then ChunksFrom(p, n, 0) else [p]
  }

  /** The display lines of a sequence of paragraphs, paragraph after paragraph. */
  function LinesOf(ps: seq<string>, n: int): seq<string>
    requires n >= 1
  {
    if ps == [] then [] else ParagraphLines(ps[0], n) + LinesOf(ps[1..], n)
  }

  /** The display lines of `body` at width `n`: what `GetLines(n)` returns. */
  function Lines(body: string, n: int): seq<string>
    requires n >= 1
  {
    LinesOf(Split(body, '\n'), n)
  }

  /** One step of the paragraph loop: the lines of paragraphs `k..` are paragraph `k`'s lines, then those of `k+1..`. */
  lemma LinesOfStep(acc: seq<string>, ps: seq<string>, k: nat, n: int)
    requires n >= 1 && k < |ps|
    ensures (acc + ParagraphLines(ps[k], n)) + LinesOf(ps[k + 1..], n) == acc + LinesOf(ps[k..], n)
  {
    assert ps[k..][1..] == ps[k + 1..];
  }

  /** One step of the chunk loop: the chunks from `i` are the chunk at `i`, then the chunks from `i + n`. */
  lemma ChunksStep(acc: seq<string>, p: string, n: int, i: nat)
    requires n >= 1 && i < |p|
    ensures (acc + [p[i..i + Min(n, |p| - i)]]) + ChunksFrom(p, n, i + n) == acc + ChunksFrom(p, n, i)
  {
  }

  /** A paragraph whose length is a positive multiple of `n`: its last display line is exactly `n` wide. */
  predicate FullWidth(p: string, n: int)
    requires n >= 1
  {
    |p| > 0 && |p| % n == 0
  }

  // ---------------------------------------------------------------------------
  // Facts about the cutting

  lemma {:induction false} MulAtLeast(n: int, d: int)
    requires n >= 1 && d >= 1
    ensures n * d >= n
    decreases d
  {
    if d > 1 {
      MulAtLeast(n, d - 1);
      assert n * d == n * (d - 1) + n;
    }
  }

  /** Euclidean division is unique: `n * q + r` with `0 <= r < n` has quotient `q` and remainder `r`. */
  lemma DivModUnique(a: int, n: int, q: int, r: int)
    requires n >= 1 && 0 <= r < n && a == n * q + r
    ensures a / n == q && a % n == r
  {
    var q', r' := a / n, a % n;
    assert n * (q - q') == r' - r;
    if q - q' >= 1 {
      MulAtLeast(n, q - q');
    } else if q' - q >= 1 {
      MulAtLeast(n, q' - q);
    }
  }

  lemma ModStep(i: int, m: int, n: int)
    requires n >= 1 && i >= 0 && i % n == 0 && 0 < m <= n
    ensures (i + m) % n == 0 <==> m == n
  {
    var q := i / n;
    assert i == n * q;
    if m == n {
      DivModUnique(i + m, n, q + 1, 0);
    } else {
      DivModUnique(i + m, n, q, m);
    }
  }

  /**
   * The chunks cut from offset `i` (a multiple of `n`) on: at least one, all
   * but the last exactly `n` wide, the last non-empty and `n` wide exactly
   * when the paragraph length is a multiple of `n`; together they spell the
   * rest of the paragraph.
   */
  lemma {:induction false} ChunksFacts(p: string, n: int, i: nat)
    requires n >= 1 && i < |p| && i % n == 0
    ensures var cs := ChunksFrom(p, n, i);
      && |cs| >= 1
      && (forall k :: 0 <= k < |cs| - 1 ==> |cs[k]| == n)
      && 0 < |cs[|cs| - 1]| <= n
      && (|cs[|cs| - 1]| == n <==> |p| % n == 0)
      && Concat(cs) == p[i..]
    decreases |p| - i
  {
    var cs := ChunksFrom(p, n, i);
    if i + n >= |p| {
      assert Min(i + n, |p|) == |p|;
      assert cs == [p[i..|p|]] + ChunksFrom(p, n, i + n);
      assert ChunksFrom(p, n, i + n) == [];
      ModStep(i, |p| - i, n);
    } else {
      assert (i + n) % n == 0 by {
        assert i == n * (i / n);
        DivModUnique(i + n, n, i / n + 1, 0);
      }
      ChunksFacts(p, n, i + n);
      var rest := ChunksFrom(p, n, i + n);
      assert cs == [p[i..i + n]] + rest;
      assert cs[1..] == rest;
      assert p[i..] == p[i..i + n] + p[i + n..];
    }
  }

  /**
   * One paragraph's display lines: a paragraph no longer than `n` (the empty
   * one included) is one line equal to itself; a longer one becomes at least
   * two lines, all but the last exactly `n` wide and the last non-empty. Either
   * way the lines spell the paragraph, none is wider than `n`, and the last is
   * narrower than `n` unless the paragraph is `FullWidth`.
   */
  lemma ParagraphLinesFacts(p: string, n: int)
    requires n >= 1
    ensures var ls := ParagraphLines(p, n);
      && |ls| >= 1
      && (|p| <= n ==> ls == [p])
      && (|p| > n ==> |ls| >= 2 && |ls[|ls| - 1]| > 0)
      && (forall k :: 0 <= k < |ls| - 1 ==> |ls[k]| == n)
      && (forall k :: 0 <= k < |ls| ==> |ls[k]| <= n)
      && (|ls[|ls| - 1]| < n <==> !FullWidth(p, n))
      && Concat(ls) == p
  {
    var ls := ParagraphLines(p, n);
    if |p| > n {
      ChunksFacts(p, n, 0);
      assert ls[0] == p[..n];
    } else {
      assert Concat(ls) == p + Concat([]);
      if 0 < |p| {
        ModStep(0, |p|, n);
      }
    }
  }

  /** All paragraphs' lines: each at most `n` wide, at least one per paragraph, spelling the paragraphs in order. */
  lemma {:induction false} LinesOfFacts(ps: seq<string>, n: int)
    requires n >= 1
    ensures var ls := LinesOf(ps, n);
      && |ls| >= |ps|
      && (forall k :: 0 <= k < |ls| ==> |ls[k]| <= n)
      && Concat(ls) == Concat(ps)
    decreases |ps|
  {
    if ps != [] {
      var head := ParagraphLines(ps[0], n);
      ParagraphLinesFacts(ps[0], n);
      LinesOfFacts(ps[1..], n);
      var tail := LinesOf(ps[1..], n);
      ConcatAppend(head, tail);
      assert forall k :: 0 <= k < |head + tail| ==> (head + tail)[k] in head || (head + tail)[k] in tail;
    }
  }

  /**
   * GetLines' result for width `n` is never empty, has no line wider than
   * `n`, has at least one line per paragraph, and holds the characters of the
   * body in order with only the newlines taken out.
   */
  lemma LinesFacts(body: string, n: int)
    requires n >= 1
    ensures var ls := Lines(body, n);
      && |ls| >= |Split(body, '\n')| >= 1
      && (forall k :: 0 <= k < |ls| ==> |ls[k]| <= n)
      && Concat(ls) == Without(body, '\n')
  {
    LinesOfFacts(Split(body, '\n'), n);
    ConcatSplit(body, '\n');
  }

  /** An empty body is one empty display line, whatever the width. */
  lemma EmptyBodyLines(n: int)
    requires n >= 1
    ensures Lines("", n) == [""]
  {
    assert Split("", '\n') == [""];
    assert ParagraphLines("", n) == [""];
    assert LinesOf([""], n) == [""] + LinesOf([""][1..], n);
    assert [""][1..] == [];
  }

  /** When no paragraph is wider than `n`, the display lines are exactly the paragraphs. */
  lemma {:induction false} NarrowParagraphsAreLines(ps: seq<string>, n: int)
    requires n >= 1
    requires forall k :: 0 <= k < |ps| ==> |ps[k]| <= n
    ensures LinesOf(ps, n) == ps
    decreases |ps|
  {
    if ps != [] {
      NarrowParagraphsAreLines(ps[1..], n);
      assert [ps[0]] + ps[1..] == ps;
    }
  }

  // ---------------------------------------------------------------------------
  // Joining lines back

  /**
   * What `LinesToBody` emits for the line at position `i`: the line followed
   * by a newline when it is narrower than `n` and the FIRST line equal to it
   * (`lines.IndexOf(l)`) is not the last line.
   */
  function Emitted(lines: seq<string>, n: int, i: nat): (r: string)
    requires i < |lines|
    ensures r == lines[i] || (r == lines[i] + "\n" && |lines[i]| < n)
  {
    var l := lines[i];
    if |l| < n && IndexOf(lines, l) < |lines| - 1 then l + "\n" else l
  }

  /** The emitted strings of lines `i..` concatenated. */
  function EmittedFrom(lines: seq<string>, n: int, i: nat): string
    requires i <= |lines|
    decreases |lines| - i
  {
    if i == |lines| then "" else Emitted(lines, n, i) + EmittedFrom(lines, n, i + 1)
  }

  /** The body `LinesToBody(lines, n)` assigns, as the source computes it. */
  function BodyOf(lines: seq<string>, n: int): string
  {
    EmittedFrom(lines, n, 0)
  }

  /**
   * The join the source evidently intends: a newline after each line that is
   * narrower than `n` and is not the last line, by position.
   */
  function Unreflow(lines: seq<string>, n: int): string
  {
    if |lines| == 0 then ""
    else if |lines| == 1 then lines[0]
    else lines[0] + (if |lines[0]| < n then "\n" else "") + Unreflow(lines[1..], n)
  }

  /** The case where the two joins differ: the last line is narrower than `n` and repeats an earlier line. */
  predicate ShortLastLineRepeated(lines: seq<string>, n: int)
  {
    |lines| > 0 && |lines[|lines| - 1]| < n && lines[|lines| - 1] in lines[..|lines| - 1]
  }

  /** Before the last line, the first equal line is never the last one, so the rule is positional. */
  lemma EmittedBeforeLast(lines: seq<string>, n: int, i: nat)
    requires i < |lines| - 1
    ensures Emitted(lines, n, i) == lines[i] + (if |lines[i]| < n then "\n" else "")
  {
    assert lines[i] in lines;
  }

  /** At the last line, the rule adds a newline exactly when the line is short and repeated. */
  lemma EmittedLast(lines: seq<string>, n: int)
    requires |lines| > 0
    ensures Emitted(lines, n, |lines| - 1)
         == lines[|lines| - 1] + (if ShortLastLineRepeated(lines, n) then "\n" else "")
  {
    var last := |lines| - 1;
    var j := IndexOf(lines, lines[last]);
    if j < last {
      assert lines[..last][j] == lines[last];
    } else {
      assert lines[last] !in lines[..j];
    }
  }

  lemma {:induction false} EmittedFromIsUnreflow(lines: seq<string>, n: int, i: nat)
    requires i < |lines|
    ensures EmittedFrom(lines, n, i)
         == Unreflow(lines[i..], n) + (if ShortLastLineRepeated(lines, n) then "\n" else "")
    decreases |lines| - i
  {
    if i == |lines| - 1 {
      EmittedLast(lines, n);
      assert lines[i..] == [lines[i]];
    } else {
      EmittedBeforeLast(lines, n, i);
      EmittedFromIsUnreflow(lines, n, i + 1);
      assert lines[i..][1..] == lines[i + 1..];
    }
  }

  /**
   * `LinesToBody` as written equals the intended positional join, except that
   * it appends one more newline when the last line is narrower than `n` and
   * repeats an earlier line.
   */
  lemma AsWrittenJoin(lines: seq<string>, n: int)
    ensures BodyOf(lines, n)
         == Unreflow(lines, n) + (if ShortLastLineRepeated(lines, n) then "\n" else "")
  {
    if |lines| > 0 {
      EmittedFromIsUnreflow(lines, n, 0);
      assert lines[0..] == lines;
    }
  }

  /** The two-line witness of the difference: `["a", "a"]` at width 5 becomes "a\na\n", not "a\na". */
  lemma RepeatedLastLineGetsNewline()
    ensures Lines("a\na", 5) == ["a", "a"]
    ensures BodyOf(["a", "a"], 5) == "a\na\n"
    ensures Unreflow(["a", "a"], 5) == "a\na"
  {
    var ps := ["a", "a"];
    assert ps[1..] == ["a"];
    assert Join(ps, '\n') == "a" + "\n" + "a" == "a\na";
    SplitJoin(ps, '\n');
    assert LinesOf(["a", "a"], 5) == ["a", "a"] by {
      NarrowParagraphsAreLines(["a", "a"], 5);
    }
    AsWrittenJoin(["a", "a"], 5);
    assert ShortLastLineRepeated(["a", "a"], 5) by {
      assert ["a", "a"][..1] == ["a"];
    }
  }

  /** A wrapped-line prefix: every line but the last is at least `n` wide, so no newline goes between them. */
  predicate Wrapped(ls: seq<string>, n: int)
  {
    |ls| >= 1 && forall k :: 0 <= k < |ls| - 1 ==> |ls[k]| >= n
  }

  lemma {:induction false} UnreflowWrapped(a: seq<string>, r: seq<string>, n: int)
    requires Wrapped(a, n)
    ensures r == [] ==> Unreflow(a + r, n) == Concat(a)
    ensures r != [] ==> Unreflow(a + r, n)
                        == Concat(a) + (if |a[|a| - 1]| < n then "\n" else "") + Unreflow(r, n)
    decreases |a|
  {
    if |a| == 1 {
      assert Concat(a) == a[0];
      if r != [] {
        assert (a + r)[1..] == r;
      } else {
        assert a + r == a;
      }
    } else {
      assert (a + r)[1..] == a[1..] + r;
      UnreflowWrapped(a[1..], r, n);
    }
  }

  /**
   * The paragraphs joined as the display lines remember them: a newline after
   * every paragraph except the last and except those that are `FullWidth`.
   */
  function Rejoin(ps: seq<string>, n: int): string
    requires n >= 1
  {
    if |ps| == 0 then ""
    else if |ps| == 1 then ps[0]
    else ps[0] + (if FullWidth(ps[0], n) then "" else "\n") + Rejoin(ps[1..], n)
  }

  /** Joining the display lines of paragraphs by position gives the paragraphs back, minus the newlines after full-width ones. */
  lemma {:induction false} UnreflowLinesOf(ps: seq<string>, n: int)
    requires n >= 1
    ensures Unreflow(LinesOf(ps, n), n) == Rejoin(ps, n)
    decreases |ps|
  {
    if ps != [] {
      var head := ParagraphLines(ps[0], n);
      ParagraphLinesFacts(ps[0], n);
      var tail := LinesOf(ps[1..], n);
      UnreflowWrapped(head, tail, n);
      if |ps| > 1 {
        LinesOfFacts(ps[1..], n);
        UnreflowLinesOf(ps[1..], n);
      } else {
        assert tail == [];
      }
    }
  }

  /** Where no paragraph but the last is full-width, the remembered join is the newline join. */
  lemma {:induction false} RejoinIsJoin(ps: seq<string>, n: int)
    requires n >= 1
    ensures Rejoin(ps, n) == Join(ps, '\n')
        <==> forall k :: 0 <= k < |ps| - 1 ==> !FullWidth(ps[k], n)
    decreases |ps|
  {
    if |ps| > 1 {
      RejoinIsJoin(ps[1..], n);
      RejoinShorter(ps[1..], n);
      if FullWidth(ps[0], n) {
        assert |Rejoin(ps, n)| < |Join(ps, '\n')|;
      } else {
        var tail := ps[1..];
        assert Rejoin(ps, n) == ps[0] + "\n" + Rejoin(tail, n);
        assert Join(ps, '\n') == ps[0] + "\n" + Join(tail, '\n');
        if Rejoin(ps, n) == Join(ps, '\n') {
          assert Rejoin(tail, n) == Rejoin(ps, n)[|ps[0]| + 1..];
        }
        assert (forall k :: 0 <= k < |ps| - 1 ==> !FullWidth(ps[k], n))
           <==> (forall k :: 0 <= k < |tail| - 1 ==> !FullWidth(tail[k], n)) by {
          forall k | 0 <= k < |tail| - 1 ensures tail[k] == ps[k + 1] { }
        }
      }
    }
  }

  lemma {:induction false} RejoinShorter(ps: seq<string>, n: int)
    requires n >= 1
    ensures |Rejoin(ps, n)| <= |Join(ps, '\n')|
    decreases |ps|
  {
    if |ps| > 1 {
      RejoinShorter(ps[1..], n);
    }
  }

  /** A body whose paragraphs, the last one aside, are not positive multiples of `n` long. */
  predicate NoFullWidthParagraph(body: string, n: int)
    requires n >= 1
  {
    var ps := Split(body, '\n');
    forall k :: 0 <= k < |ps| - 1 ==> !FullWidth(ps[k], n)
  }

  /**
   * The intended join undoes GetLines exactly when no paragraph but the last
   * has a length that is a positive multiple of `n`.
   */
  lemma UnreflowRoundTrip(body: string, n: int)
    requires n >= 1
    ensures Unreflow(Lines(body, n), n) == body <==> NoFullWidthParagraph(body, n)
  {
    UnreflowLinesOf(Split(body, '\n'), n);
    RejoinIsJoin(Split(body, '\n'), n);
    JoinSplit(body, '\n');
  }

  /**
   * `LinesToBody(GetLines(n), n)` restores the body when no paragraph but the
   * last is a positive multiple of `n` long and the last display line, if it is
   * narrower than `n`, repeats no earlier line.
   */
  lemma LinesToBodyRoundTrip(body: string, n: int)
    requires n >= 1
    requires NoFullWidthParagraph(body, n)
    requires !ShortLastLineRepeated(Lines(body, n), n)
    ensures BodyOf(Lines(body, n), n) == body
  {
    AsWrittenJoin(Lines(body, n), n);
    UnreflowRoundTrip(body, n);
  }

  /** "abcde\nf" at width 5 is shown as the two lines "abcde" and "f". */
  lemma FullWidthParagraphLines()
    ensures Lines("abcde\nf", 5) == ["abcde", "f"]
  {
    var ps := ["abcde", "f"];
    assert ps[1..] == ["f"];
    assert Join(ps, '\n') == "abcde" + "\n" + "f" == "abcde\nf";
    SplitJoin(ps, '\n');
    NarrowParagraphsAreLines(ps, 5);
  }

  /** The newline after a paragraph exactly `n` wide is lost: the lines of "abcde\nf" at width 5 come back as "abcdef". */
  lemma FullWidthParagraphLosesNewline()
    ensures BodyOf(Lines("abcde\nf", 5), 5) == "abcdef"
  {
    FullWidthParagraphLines();
    var ps := ["abcde", "f"];
    assert Emitted(ps, 5, 0) == "abcde";
    assert IndexOf(ps, "f") == 1 by {
      assert ps[0] != "f";
    }
    assert Emitted(ps, 5, 1) == "f";
    assert EmittedFrom(ps, 5, 1) == "f" + "";
  }

  /** "abcde\n\n" at width 5 is shown as "abcde" and two empty lines. */
  lemma StrayNewlineLines()
    ensures Split("abcde\n\n", '\n') == ["abcde", "", ""]
    ensures Lines("abcde\n\n", 5) == ["abcde", "", ""]
  {
    var ps := ["abcde", "", ""];
    assert ps[1..] == ["", ""] && ps[1..][1..] == [""];
    assert Join(ps, '\n') == "abcde" + "\n" + "" + "\n" + "" == "abcde\n\n";
    SplitJoin(ps, '\n');
    NarrowParagraphsAreLines(ps, 5);
  }

  /**
   * The stray newline can stand in for a lost one: in "abcde\n\n" at width 5
   * the full-width "abcde" loses its newline, and the repeated empty last
   * line gets one, so `LinesToBody` restores the body all the same.
   */
  lemma StrayNewlineRestoresBody()
    ensures Lines("abcde\n\n", 5) == ["abcde", "", ""]
    ensures !NoFullWidthParagraph("abcde\n\n", 5)
    ensures BodyOf(Lines("abcde\n\n", 5), 5) == "abcde\n\n"
  {
    StrayNewlineLines();
    var ps := ["abcde", "", ""];
    assert FullWidth(ps[0], 5);
    AsWrittenJoin(ps, 5);
    assert ShortLastLineRepeated(ps, 5) by {
      assert ps[..2][1] == "";
    }
    assert ps[1..] == ["", ""] && ps[1..][1..] == [""];
    assert Unreflow(ps, 5) == "abcde" + "" + ("" + "\n" + "");
  }
}
