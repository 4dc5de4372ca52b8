/**
 * The general-purpose extension methods the word processor uses: a strict
 * range test, moving an element within a list, an English list joiner,
 * identifier-to-words conversion and the indefinite article of a noun.
 */
module ExtensionsAndHelpers {
  import opened Wrappers
  import opened Strings

  // ---------------------------------------------------------------------------
  // IsBetween

  /** `int.CompareTo`: negative, zero or positive as `a` is below, equal to or above `b`. */
  function CompareTo(a: int, b: int): (c: int)
    ensures c < 0 <==> a < b
    ensures c == 0 <==> a == b
    ensures c > 0 <==> a > b
  {
    if a < b then -1 else if a > b then 1 else 0
  }

  /** Whether `num` lies strictly between `min` and `max`: false at both end points. */
  function IsBetween(num: int, min: int, max: int): (r: bool)
    ensures r <==> min < num < max
  {
    CompareTo(num, min) > 0 && CompareTo(num, max) < 0
  }

  // ---------------------------------------------------------------------------
  // MoveElement

  /** A mutable `List<T>`; `Items` is its contents in order. */
  class List<T> {
    var Items: seq<T>

    constructor (items: seq<T>)
      ensures Items == items
    {
      Items := items;
    }

    /** `List.RemoveAt`: drops the element at `index`. */
    method RemoveAt(index: int)
      requires 0 <= index < |Items|
      modifies this
      ensures Items == old(Items[..index] + Items[index + 1..])
    {
      Items := Items[..index] + Items[index + 1..];
    }

    /** `List.Insert`: puts `item` at `index`, shifting the rest right. */
    method Insert(index: int, item: T)
      requires 0 <= index <= |Items|
      modifies this
      ensures Items == old(Items[..index]) + [item] + old(Items[index..])
    {
      Items := Items[..index] + [item] + Items[index..];
    }
  }

  function RemovedAt<T>(s: seq<T>, i: int): (r: seq<T>)
    requires 0 <= i < |s|
  {
    s[..i] + s[i + 1..]
  }

  function InsertedAt<T>(s: seq<T>, i: int, x: T): (r: seq<T>)
    requires 0 <= i <= |s|
  {
    s[..i] + [x] + s[i..]
  }

  /** Where `MoveElement` puts `x`: its first index shifted by `distance`, clamped to the list. */
  function MovedIndex<T(==)>(s: seq<T>, x: T, distance: int): (j: int)
    requires x in s
    ensures 0 <= j < |s|
  {
    var i := IndexOf(s, x) + distance;
    if i < 0 then 0 else if i > |s| - 1 then |s| - 1 else i
  }

  /** The list after `MoveElement`: the first `x` taken out and put back at `MovedIndex`. */
  function Moved<T(==)>(s: seq<T>, x: T, distance: int): seq<T>
    requires x in s
  {
    InsertedAt(RemovedAt(s, IndexOf(s, x)), MovedIndex(s, x, distance), x)
  }

  /**
   * Moves the first occurrence of `element` by `distance` places, clamped to
   * the ends of the list; an absent element throws and leaves the list alone.
   */
  method MoveElement<T(==)>(list: List<T>, element: T, distance: int) returns (outcome: Outcome<string>)
    modifies list
    ensures element in old(list.Items) ==> outcome == Pass && list.Items == Moved(old(list.Items), element, distance)
    ensures element !in old(list.Items) ==>
      outcome == Fail("List does not contain element.") && list.Items == old(list.Items)
  {
    if element in list.Items {
      var oldIndex := IndexOf(list.Items, element);
      var newIndex := oldIndex + distance;
      if newIndex < 0 {
        newIndex := 0;
      } else if newIndex > |list.Items| - 1 {
        newIndex := |list.Items| - 1;
      }
      list.RemoveAt(oldIndex);
      list.Insert(newIndex, element);
      outcome := Pass;
    } else {
      outcome := Fail("List does not contain element.");
    }
  }

  /** Inserting `x` at `j` and then removing index `j` gives back the list; the multiset gains `x`. */
  lemma InsertThenRemove<T>(t: seq<T>, j: int, x: T)
    requires 0 <= j <= |t|
    ensures var r := InsertedAt(t, j, x);
      && |r| == |t| + 1 && r[j] == x
      && RemovedAt(r, j) == t
      && multiset(r) == multiset(t) + multiset{x}
  {
    var r := InsertedAt(t, j, x);
    assert r[..j] == t[..j] && r[j + 1..] == t[j..];
    assert t[..j] + t[j..] == t;
    assert multiset(r) == multiset(t[..j]) + multiset{x} + multiset(t[j..]);
  }

  /** Removing index `i` takes exactly one `s[i]` out of the multiset. */
  lemma RemoveMultiset<T>(s: seq<T>, i: int)
    requires 0 <= i < |s|
    ensures multiset(RemovedAt(s, i)) + multiset{s[i]} == multiset(s)
  {
    assert s == s[..i] + [s[i]] + s[i + 1..];
  }

  /**
   * Moving keeps the length and the multiset of elements; the moved element
   * ends at `MovedIndex`; and taking it out again leaves the other elements
   * exactly as they were, in the same order.
   */
  lemma MovedFacts<T>(s: seq<T>, x: T, distance: int)
    requires x in s
    ensures var r, i, j := Moved(s, x, distance), IndexOf(s, x), MovedIndex(s, x, distance);
      && |r| == |s|
      && multiset(r) == multiset(s)
      && r[j] == x
      && RemovedAt(r, j) == RemovedAt(s, i)
  {
    var i, j := IndexOf(s, x), MovedIndex(s, x, distance);
    InsertThenRemove(RemovedAt(s, i), j, x);
    RemoveMultiset(s, i);
  }

  /** Moving by zero places changes nothing. */
  lemma MoveByZero<T>(s: seq<T>, x: T)
    requires x in s
    ensures Moved(s, x, 0) == s
  {
    var i := IndexOf(s, x);
    assert MovedIndex(s, x, 0) == i;
    var t := RemovedAt(s, i);
    assert t[..i] == s[..i] && t[i..] == s[i + 1..];
    assert s == s[..i] + [x] + s[i + 1..];
  }

  // ---------------------------------------------------------------------------
  // ToString(conjunction)

  /** The items joined with ", ". */
  function CommaJoin(xs: seq<string>): string
  {
    if |xs| == 0 then ""
    else if |xs| == 1 then xs[0]
    else CommaJoin(xs[..|xs| - 1]) + ", " + xs[|xs| - 1]
  }

  /**
   * An English listing of one or more items: one item alone; two joined by
   * the conjunction; three or more separated by commas with the conjunction
   * before the last (the serial comma).
   */
  function Listing(items: seq<string>, conjunction: string): string
    requires |items| >= 1
  {
    var n := |items|;
    if n == 1 then items[0]
    else if n == 2 then items[0] + " " + conjunction + " " + items[1]
    else CommaJoin(items[..n - 1]) + ", " + conjunction + " " + items[n - 1]
  }

  /** What the loop body appends for item `i`: the item, then its separator, then the conjunction before the last item. */
  function Piece(items: seq<string>, conjunction: string, i: nat): string
    requires i < |items|
  {
    var n := |items|;
    items[i]
      + (if i != n - 1 then (if n == 2 then " " else ", ") else "")
      + (if i == n - 2 then conjunction + " " else "")
  }

  /** The output after the loop has handled items `0 .. k-1`. */
  function PiecesUpTo(items: seq<string>, conjunction: string, k: nat): string
    requires k <= |items|
  {
    if k == 0 then "" else PiecesUpTo(items, conjunction, k - 1) + Piece(items, conjunction, k - 1)
  }

  lemma {:induction false} CommaPrefix(items: seq<string>, conjunction: string, k: nat)
    requires |items| >= 3 && 1 <= k <= |items| - 2
    ensures PiecesUpTo(items, conjunction, k) == CommaJoin(items[..k]) + ", "
    decreases k
  {
    if k > 1 {
      CommaPrefix(items, conjunction, k - 1);
      assert items[..k][..k - 1] == items[..k - 1];
    }
  }

  lemma PiecesOfTwo(items: seq<string>, conjunction: string)
    requires |items| == 2
    ensures PiecesUpTo(items, conjunction, 2) == items[0] + " " + conjunction + " " + items[1]
  {
    assert PiecesUpTo(items, conjunction, 1) == Piece(items, conjunction, 0);
  }

  lemma PiecesOfMany(items: seq<string>, conjunction: string)
    requires |items| >= 3
    ensures PiecesUpTo(items, conjunction, |items|)
         == CommaJoin(items[..|items| - 1]) + ", " + conjunction + " " + items[|items| - 1]
  {
    var n := |items|;
    CommaPrefix(items, conjunction, n - 2);
    assert items[..n - 1][..n - 2] == items[..n - 2];
    assert CommaJoin(items[..n - 1]) == CommaJoin(items[..n - 2]) + ", " + items[n - 2];
    assert PiecesUpTo(items, conjunction, n - 1)
        == CommaJoin(items[..n - 2]) + ", " + items[n - 2] + ", " + conjunction + " ";
  }

  /** The loop's output over all items is the listing. */
  lemma PiecesAreListing(items: seq<string>, conjunction: string)
    requires |items| >= 1
    ensures PiecesUpTo(items, conjunction, |items|) == Listing(items, conjunction)
  {
    if |items| == 1 {
      assert PiecesUpTo(items, conjunction, 1) == "" + Piece(items, conjunction, 0);
    } else if |items| == 2 {
      PiecesOfTwo(items, conjunction);
    } else {
      PiecesOfMany(items, conjunction);
    }
  }

  /**
   * `ToString(source, conjunction)`: `None` (the source's `null`) for a missing
   * or empty source, otherwise the listing of its items.
   */
  method ToString(source: Option<seq<string>>, conjunction: string) returns (output: Option<string>)
    ensures source.None? || source.value == [] ==> output == None
    ensures source.Some? && source.value != [] ==> output == Some(Listing(source.value, conjunction))
  {
    if source.None? || |source.value| == 0 {
      return None;
    }
    var sourceArr := source.value;
    var out := "";
    for i := 0 to |sourceArr|
      invariant out == PiecesUpTo(sourceArr, conjunction, i)
    {
      out := out + sourceArr[i];
      if i != |sourceArr| - 1 {
        out := out + (if |sourceArr| == 2 then " " else ", ");
      }
      if i == |sourceArr| - 2 {
        out := out + conjunction + " ";
      }
    }
    PiecesAreListing(sourceArr, conjunction);
    return Some(out);
  }

  lemma {:induction false} CommaJoinEnds(xs: seq<string>)
    requires |xs| >= 1
    ensures xs[0] <= CommaJoin(xs)
    ensures var r := CommaJoin(xs); |xs[|xs| - 1]| <= |r| && r[|r| - |xs[|xs| - 1]|..] == xs[|xs| - 1]
    decreases |xs|
  {
    if |xs| > 1 {
      var init := xs[..|xs| - 1];
      CommaJoinEnds(init);
      assert init[0] == xs[0];
    }
  }

  /** A listing starts with the first item and ends with the last. */
  lemma ListingEnds(items: seq<string>, conjunction: string)
    requires |items| >= 1
    ensures var r, last := Listing(items, conjunction), items[|items| - 1];
      && items[0] <= r
      && |last| <= |r| && r[|r| - |last|..] == last
  {
    var n := |items|;
    if n >= 3 {
      CommaJoinEnds(items[..n - 1]);
      assert items[..n - 1][0] == items[0];
    }
  }

  /** The three-item case spelled out: "a, b, and c". */
  lemma ThreeItems(a: string, b: string, c: string, conjunction: string)
    ensures Listing([a, b, c], conjunction) == a + ", " + b + ", " + conjunction + " " + c
  {
    assert [a, b, c][..2] == [a, b];
    assert [a, b][..1] == [a];
    assert CommaJoin([a, b]) == CommaJoin([a]) + ", " + b;
  }

  // ---------------------------------------------------------------------------
  // FromTitleOrCamelCase (ASCII only)

  predicate IsUpperAscii(c: char) { 'A' <= c <= 'Z' }

  /** `Char.ToLower` on ASCII: capitals become small letters, everything else is kept. */
  function ToLowerAscii(c: char): (d: char)
    ensures IsUpperAscii(c) ==> 'a' <= d <= 'z' && d as int == c as int + 32
    ensures !IsUpperAscii(c) ==> d == c
  {
    if IsUpperAscii(c) then (c as int + 32) as char else c
  }

  /** `Regex.Replace(s, "([A-Z])", " $1")`: a space before every capital. */
  function SpaceBeforeCapitals(s: string): string
  {
    if s == [] then "" else (if IsUpperAscii(s[0]) then [' ', s[0]] else [s[0]]) + SpaceBeforeCapitals(s[1..])
  }

  /** `String.ToLower` on ASCII. */
  function ToLower(s: string): (r: string)
    ensures |r| == |s|
    ensures forall c :: c in r ==> !IsUpperAscii(c)
  {
    if s == [] then "" else [ToLowerAscii(s[0])] + ToLower(s[1..])
  }

  /** `Regex.Replace(s, "_", "")`. */
  function RemoveUnderscores(s: string): (r: string)
    ensures '_' !in r
    ensures forall c :: c in r ==> c in s
    ensures '_' !in s ==> r == s
  {
    if s == [] then "" else (if s[0] == '_' then "" else [s[0]]) + RemoveUnderscores(s[1..])
  }

  /**
   * The conversion stated one character at a time: a capital becomes a space
   * and its small letter, an underscore disappears, anything else is kept.
   */
  function Words(s: string): string
  {
    if s == [] then ""
    else (if IsUpperAscii(s[0]) then [' ', ToLowerAscii(s[0])] else if s[0] == '_' then "" else [s[0]])
         + Words(s[1..])
  }

  /**
   * `FromTitleOrCamelCase`, as written: `None` where `output[0]` throws
   * because nothing is left; otherwise the three passes' result. The
   * leading-space removal edits a throwaway copy, so a leading space stays.
   */
  function FromTitleOrCamelCase(source: string): (r: Option<string>)
    ensures r.Some? ==> |r.value| >= 1 && '_' !in r.value
    ensures r.Some? ==> forall c :: c in r.value ==> !IsUpperAscii(c)
  {
    var output := RemoveUnderscores(ToLower(SpaceBeforeCapitals(source)));
    if |output| == 0 then None else Some(output)
  }

  /** The same with the leading space evidently meant to be removed. */
  function FromTitleOrCamelCaseIntended(source: string): (r: Option<string>)
    ensures r.None? <==> FromTitleOrCamelCase(source).None?
    ensures r.Some? ==> FromTitleOrCamelCase(source).value in {r.value, " " + r.value}
  {
    var output := RemoveUnderscores(ToLower(SpaceBeforeCapitals(source)));
    if |output| == 0 then None
    else if output[0] == ' ' then assert output == " " + output[1..]; Some(output[1..])
    else Some(output)
  }

  lemma {:induction false} ToLowerAppend(a: string, b: string)
    ensures ToLower(a + b) == ToLower(a) + ToLower(b)
    decreases |a|
  {
    if a == [] {
      assert a + b == b;
    } else {
      assert (a + b)[1..] == a[1..] + b;
      ToLowerAppend(a[1..], b);
    }
  }

  lemma {:induction false} RemoveUnderscoresAppend(a: string, b: string)
    ensures RemoveUnderscores(a + b) == RemoveUnderscores(a) + RemoveUnderscores(b)
    decreases |a|
  {
    if a == [] {
      assert a + b == b;
    } else {
      assert (a + b)[1..] == a[1..] + b;
      RemoveUnderscoresAppend(a[1..], b);
    }
  }

  /** The three passes of the source compute `Words`. */
  lemma {:induction false} PassesAreWords(s: string)
    ensures RemoveUnderscores(ToLower(SpaceBeforeCapitals(s))) == Words(s)
    decreases |s|
  {
    if s != [] {
      var c := s[0];
      var head: string := if IsUpperAscii(c) then [' ', c] else [c];
      PassesAreWords(s[1..]);
      ToLowerAppend(head, SpaceBeforeCapitals(s[1..]));
      RemoveUnderscoresAppend(ToLower(head), ToLower(SpaceBeforeCapitals(s[1..])));
      if IsUpperAscii(c) {
        assert ToLower(head) == [' ', ToLowerAscii(c)];
        assert RemoveUnderscores([' ', ToLowerAscii(c)]) == [' ', ToLowerAscii(c)];
      } else {
        assert ToLower(head) == [c];
      }
    }
  }

  lemma {:induction false} WordsEmpty(s: string)
    ensures Words(s) == "" <==> forall i :: 0 <= i < |s| ==> s[i] == '_'
    decreases |s|
  {
    if s != [] {
      WordsEmpty(s[1..]);
      assert forall i :: 1 <= i < |s| ==> s[i] == s[1..][i - 1];
    }
  }

  /**
   * `FromTitleOrCamelCase` throws exactly when the source is empty or only
   * underscores; otherwise it returns `Words(source)`.
   */
  lemma FromTitleOrCamelCaseSpec(source: string)
    ensures FromTitleOrCamelCase(source)
         == if forall i :: 0 <= i < |source| ==> source[i] == '_' then None else Some(Words(source))
  {
    PassesAreWords(source);
    WordsEmpty(source);
  }

  /** As written, "MyVar" becomes " my var", with the leading space left in. */
  lemma LeadingSpaceKept()
    ensures FromTitleOrCamelCase("MyVar") == Some(" my var")
    ensures FromTitleOrCamelCaseIntended("MyVar") == Some("my var")
  {
    var w := " my var";
    assert Words("MyVar") == w by {
      assert Words("r") == "r" by { assert "r"[1..] == ""; }
      assert Words("ar") == "ar" by { assert "ar"[1..] == "r"; }
      assert Words("Var") == " var" by { assert "Var"[1..] == "ar"; }
      assert Words("yVar") == "y var" by { assert "yVar"[1..] == "Var"; }
      assert "MyVar"[1..] == "yVar";
    }
    PassesAreWords("MyVar");
    assert w[1..] == "my var";
  }

  lemma {:induction false} WordsLeadingSpace(s: string)
    requires ' ' !in s
    requires |Words(s)| >= 1 && Words(s)[0] == ' '
    ensures |Words(s)| >= 2 && Words(s)[1] != ' '
    decreases |s|
  {
    if s[0] == '_' {
      assert ' ' !in s[1..] by { assert forall c :: c in s[1..] ==> c in s; }
      WordsLeadingSpace(s[1..]);
    }
  }

  /**
   * With the intended removal, an identifier without spaces never comes out
   * with a leading space.
   */
  lemma IntendedHasNoLeadingSpace(source: string)
    requires ' ' !in source
    ensures var r := FromTitleOrCamelCaseIntended(source);
      r.Some? ==> |r.value| >= 1 && r.value[0] != ' '
  {
    PassesAreWords(source);
    if |Words(source)| >= 1 && Words(source)[0] == ' ' {
      WordsLeadingSpace(source);
    }
  }

  // ---------------------------------------------------------------------------
  // IndefiniteArticle

  const Vowels := "AEIOUaeiou"

  /**
   * "an" for a noun starting with a vowel letter (either case), "a"
   * otherwise; `None` for the empty noun, on which `noun[0]` throws.
   */
  function IndefiniteArticle(noun: string): (r: Option<string>)
    ensures r.None? <==> noun == ""
    ensures r == Some("an") <==> noun != "" && noun[0] in Vowels
    ensures r.Some? ==> r.value == "an" || r.value == "a"
  {
    if |noun| == 0 then None
    else if IndexOf(Vowels, noun[0]) >= 0 then Some("an")
    else Some("a")
  }
}
