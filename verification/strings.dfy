/**
 * The handful of .NET library operations the core relies on, written out over
 * sequences: `List<T>.IndexOf` / `String.IndexOf(char)`, `String.Split(char)`
 * and `String.Join("", ...)`.
 */
module Strings {

  /** Index of the first element equal to `x`, or -1 when there is none. */
  function IndexOf<T(==)>(s: seq<T>, x: T): (i: int)
    ensures -1 <= i < |s|
    ensures i == -1 <==> x !in s
    ensures 0 <= i ==> s[i] == x && x !in s[..i]
  {
    if s == [] then -1
    else if s[0] == x then 0
    else
      var j := IndexOf(s[1..], x);
      if j < 0 then -1 else j + 1
  }

  /** The pieces of `s` between occurrences of `sep`, as `s.Split(sep)` returns them. */
  function Split(s: string, sep: char): (ps: seq<string>)
    ensures |ps| >= 1
    ensures forall i :: 0 <= i < |ps| ==> sep !in ps[i]
  {
    if s == [] then [""]
    else if s[0] == sep then [""] + Split(s[1..], sep)
    else
      var rest := Split(s[1..], sep);
      [[s[0]] + rest[0]] + rest[1..]
  }

  /** The pieces joined back with `sep` between consecutive pieces. */
  function Join(ps: seq<string>, sep: char): string
  {
    if |ps| == 0 then ""
    else if |ps| == 1 then ps[0]
    else ps[0] + [sep] + Join(ps[1..], sep)
  }

  /** All the strings concatenated with no separator (`String.Join("", ls)`). */
  function Concat(ls: seq<string>): string
  {
    if ls == [] then "" else ls[0] + Concat(ls[1..])
  }

  /** `s` with every occurrence of `c` removed. */
  function Without(s: string, c: char): (r: string)
  {
    if s == [] then ""
    else (if s[0] == c then "" else [s[0]]) + Without(s[1..], c)
  }

  /** Splitting loses nothing: joining the pieces with the separator gives the string back. */
  lemma {:induction false} JoinSplit(s: string, sep: char)
    ensures Join(Split(s, sep), sep) == s
    decreases |s|
  {
    if s != [] {
      var rest := Split(s[1..], sep);
      JoinSplit(s[1..], sep);
      if s[0] == sep {
        assert ([""] + rest)[1..] == rest;
      } else if |rest| > 1 {
        assert ([[s[0]] + rest[0]] + rest[1..])[1..] == rest[1..];
      }
    }
  }

  /** The other direction: pieces free of `sep`, joined with `sep`, split back into the same pieces. */
  lemma {:induction false} SplitJoin(ps: seq<string>, sep: char)
    requires |ps| >= 1
    requires forall i :: 0 <= i < |ps| ==> sep !in ps[i]
    ensures Split(Join(ps, sep), sep) == ps
    decreases |ps|, |ps[0]|
  {
    if |ps[0]| > 0 {
      var p0 := ps[0];
      var ps' := [p0[1..]] + ps[1..];
      assert sep !in p0[1..] by { assert forall c :: c in p0[1..] ==> c in p0; }
      forall i | 0 <= i < |ps'| ensures sep !in ps'[i] {
        if i > 0 { assert ps'[i] == ps[i]; }
      }
      SplitJoin(ps', sep);
      assert ps'[1..] == ps[1..];
      var s := Join(ps, sep);
      if |ps| == 1 {
        assert s == p0;
      } else {
        assert s == [p0[0]] + Join(ps', sep);
      }
      assert s[0] == p0[0] && s[1..] == Join(ps', sep);
      assert [p0[0]] + p0[1..] == p0;
      assert [p0] + ps[1..] == ps;
    } else if |ps| > 1 {
      SplitJoin(ps[1..], sep);
      assert Join(ps, sep) == [sep] + Join(ps[1..], sep);
      assert [""] + ps[1..] == ps;
    }
  }

  lemma {:induction false} ConcatAppend(a: seq<string>, b: seq<string>)
    ensures Concat(a + b) == Concat(a) + Concat(b)
    decreases |a|
  {
    if a == [] {
      assert a + b == b;
    } else {
      assert (a + b)[1..] == a[1..] + b;
      ConcatAppend(a[1..], b);
    }
  }

  /** Concatenating the pieces of a split gives the string with the separators removed. */
  lemma {:induction false} ConcatSplit(s: string, sep: char)
    ensures Concat(Split(s, sep)) == Without(s, sep)
    decreases |s|
  {
    if s != [] {
      ConcatSplit(s[1..], sep);
      var rest := Split(s[1..], sep);
      if s[0] == sep {
        assert ([""] + rest)[1..] == rest;
      } else {
        assert ([[s[0]] + rest[0]] + rest[1..])[1..] == rest[1..];
        assert Concat(rest) == rest[0] + Concat(rest[1..]);
      }
    }
  }

  /** No separator at the end and none doubled: `s` has no empty piece except a first one when `s` starts with `sep`. */
  lemma {:induction false} SplitPiecesNonEmpty(s: string, sep: char)
    requires s == [] || s[|s| - 1] != sep
    requires forall i :: 0 <= i < |s| - 1 ==> !(s[i] == sep && s[i + 1] == sep)
    ensures forall k :: 1 <= k < |Split(s, sep)| ==> Split(s, sep)[k] != []
    ensures s != [] && s[0] != sep ==> Split(s, sep)[0] != []
    decreases |s|
  {
    if s != [] {
      var t := s[1..];
      assert forall i :: 0 <= i < |t| ==> t[i] == s[i + 1];
      SplitPiecesNonEmpty(t, sep);
      if s[0] == sep {
        assert t != [] && t[0] != sep by { assert s[0] == sep && s[1] == t[0]; }
        assert forall k :: 1 <= k < |Split(s, sep)| ==> Split(s, sep)[k] == Split(t, sep)[k - 1];
      } else {
        var rest := Split(t, sep);
        assert forall k :: 1 <= k < |Split(s, sep)| ==> Split(s, sep)[k] == rest[k];
      }
    }
  }

  /** Every character of every piece occurs in `s`. */
  lemma {:induction false} SplitPiecesFrom(s: string, sep: char)
    ensures forall k, c :: 0 <= k < |Split(s, sep)| && c in Split(s, sep)[k] ==> c in s
    decreases |s|
  {
    if s != [] {
      var t := s[1..];
      SplitPiecesFrom(t, sep);
      assert forall c :: c in t ==> c in s;
      var ps, rest := Split(s, sep), Split(t, sep);
      if s[0] == sep {
        assert forall k :: 1 <= k < |ps| ==> ps[k] == rest[k - 1];
      } else {
        assert forall k :: 1 <= k < |ps| ==> ps[k] == rest[k];
        assert forall c :: c in ps[0] ==> c == s[0] || c in rest[0];
      }
    }
  }
}
