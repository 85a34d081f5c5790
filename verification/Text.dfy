/** Text and sequence primitives shared by the scraper helpers and the NLP
    enrichment: ASCII character classes, lower-casing, Python's substring
    test `needle in hay`, `str.split(c)` and `sep.join(parts)`, and facts
    about subsequences, first occurrences and duplicate-free selection. */
module Text {

  /** A dynamically typed value as the enrichment receives it: a string, an
      integer, or a missing value (None, or NaN in a data-frame column). */
  datatype Value = Str(s: string) | Int(n: int) | Null

  datatype Option<T> = None | Some(value: T)

  // ---------------------------------------------------------------------
  // ASCII character classes

  predicate IsUpper(c: char) { 'A' <= c <= 'Z' }

  /** Python's `\s` and `str.isspace()` restricted to ASCII: tab, line feed,
      vertical tab, form feed, carriage return, the information separators
      0x1C-0x1F, and space. */
  predicate IsSpace(c: char) {
    c == ' ' || 9 <= c as int <= 13 || 28 <= c as int <= 31
  }

  /** Python's `\w` restricted to ASCII: letters, digits and underscore. */
  predicate IsWordChar(c: char) {
    'a' <= c <= 'z' || 'A' <= c <= 'Z' || '0' <= c <= '9' || c == '_'
  }

  predicate IsLowerCase(s: string) {
    forall i :: 0 <= i < |s| ==> !IsUpper(s[i])
  }

  function LowerChar(c: char): char {
    if IsUpper(c) then (c as int + 32) as char else c
  }

  /** Python's `str.lower()` on ASCII text. */
  function Lower(s: string): (r: string)
    ensures |r| == |s|
    ensures IsLowerCase(r)
    ensures forall i :: 0 <= i < |s| && !IsUpper(s[i]) ==> r[i] == s[i]
    ensures forall i :: 0 <= i < |s| && IsUpper(s[i]) ==> r[i] as int == s[i] as int + 32
  {
    seq(|s|, i requires 0 <= i < |s| => LowerChar(s[i]))
  }

  /** Lower-casing text that is already lower case changes nothing; in
      particular `Lower` is idempotent. */
  lemma LowerOfLowerCase(s: string)
    requires IsLowerCase(s)
    ensures Lower(s) == s
  {
  }

  // ---------------------------------------------------------------------
  // Substrings

  predicate StartsWith(s: string, p: string) {
    |p| <= |s| && s[..|p|] == p
  }

  /** `needle` occurs in `hay` starting at index `i`. */
  predicate OccursAt(hay: string, needle: string, i: int) {
    0 <= i <= |hay| && StartsWith(hay[i..], needle)
  }

  /** Python's `needle in hay` for strings. */
  predicate Contains(hay: string, needle: string)
    decreases |hay|
  {
    StartsWith(hay, needle) || (|hay| > 0 && Contains(hay[1..], needle))
  }

  lemma {:induction false} OccursAtContains(hay: string, needle: string, i: int)
    requires OccursAt(hay, needle, i)
    ensures Contains(hay, needle)
    decreases i
  {
    if i > 0 {
      assert hay[1..][i - 1..] == hay[i..];
      OccursAtContains(hay[1..], needle, i - 1);
    } else {
      assert hay[0..] == hay;
    }
  }

  lemma {:induction false} ContainsOccursAt(hay: string, needle: string) returns (i: int)
    requires Contains(hay, needle)
    ensures OccursAt(hay, needle, i)
    decreases |hay|
  {
    if StartsWith(hay, needle) {
      assert hay[0..] == hay;
      i := 0;
    } else {
      var j := ContainsOccursAt(hay[1..], needle);
      assert hay[1..][j..] == hay[j + 1..];
      i := j + 1;
    }
  }

  /** Containment is transitive: whatever occurs in a substring of `hay`
      occurs in `hay`. */
  lemma ContainsTransitive(hay: string, mid: string, needle: string)
    requires Contains(hay, mid) && Contains(mid, needle)
    ensures Contains(hay, needle)
  {
    var i := ContainsOccursAt(hay, mid);
    var j := ContainsOccursAt(mid, needle);
    assert mid == hay[i..i + |mid|];
    assert needle == mid[j..j + |needle|];
    assert hay[i + j..][..|needle|] == needle;
    OccursAtContains(hay, needle, i + j);
  }

  /** The empty string contains no non-empty string. */
  lemma EmptyContainsNothing(needle: string)
    requires |needle| > 0
    ensures !Contains("", needle)
  {
  }

  // ---------------------------------------------------------------------
  // Counting and first occurrences

  /** Number of occurrences of `x` in `s`. */
  function CountOf<T(==)>(s: seq<T>, x: T): (r: nat)
    ensures r <= |s|
    ensures r > 0 <==> x in s
  {
    if |s| == 0 then 0
    else (if s[0] == x then 1 else 0) + CountOf(s[1..], x)
  }

  /** Index of the first occurrence of `x` in `s`. */
  function FirstIndex<T(==)>(s: seq<T>, x: T): (r: nat)
    requires x in s
    ensures r < |s| && s[r] == x
    ensures forall j :: 0 <= j < r ==> s[j] != x
  {
    if s[0] == x then 0 else 1 + FirstIndex(s[1..], x)
  }

  /** Appending leaves the first occurrence of an element already present
      where it was. */
  lemma FirstIndexAppend<T>(s: seq<T>, t: seq<T>)
    ensures forall x :: x in s ==> FirstIndex(s + t, x) == FirstIndex(s, x)
  {
    forall x | x in s
      ensures FirstIndex(s + t, x) == FirstIndex(s, x)
    {
      var k := FirstIndex(s, x);
      assert (s + t)[k] == x;
      var k' := FirstIndex(s + t, x);
      assert k' <= k;
      assert (s + t)[k'] == s[k'];
    }
  }

  predicate NoDuplicates<T(==)>(s: seq<T>) {
    forall i, j :: 0 <= i < j < |s| ==> s[i] != s[j]
  }

  /** A sequence is duplicate-free when both sides of a cut are and no
      element left of the cut equals one right of it. */
  lemma NoDuplicatesSplit<T>(s: seq<T>, k: nat)
    requires k <= |s|
    requires NoDuplicates(s[..k]) && NoDuplicates(s[k..])
    requires forall i, j :: 0 <= i < k <= j < |s| ==> s[i] != s[j]
    ensures NoDuplicates(s)
  {
    forall i, j | 0 <= i < j < |s| ensures s[i] != s[j] {
      if j < k {
        assert s[i] == s[..k][i] && s[j] == s[..k][j];
      } else if k <= i {
        assert s[i] == s[k..][i - k] && s[j] == s[k..][j - k];
      }
    }
  }

  // ---------------------------------------------------------------------
  // Subsequences and selection

  /** `a` can be obtained from `b` by deleting elements. */
  predicate IsSubsequence<T(==)>(a: seq<T>, b: seq<T>)
    decreases |b|
  {
    |a| == 0
    || (|b| > 0
        && ((a[|a| - 1] == b[|b| - 1] && IsSubsequence(a[..|a| - 1], b[..|b| - 1]))
            || IsSubsequence(a, b[..|b| - 1])))
  }

  /** The elements of `s` satisfying `p`, in order, as a filtering list
      comprehension keeps them. */
  function Select<T(==)>(s: seq<T>, p: T -> bool): (r: seq<T>)
    ensures |r| <= |s|
    ensures forall i :: 0 <= i < |r| ==> r[i] in s && p(r[i])
    ensures forall i :: 0 <= i < |s| && p(s[i]) ==> s[i] in r
    ensures IsSubsequence(r, s)
    decreases |s|
  {
    if |s| == 0 then []
    else
      var init := Select(s[..|s| - 1], p);
      var last := s[|s| - 1];
      assert s == s[..|s| - 1] + [last];
      if p(last) then
        assert (init + [last])[..|init|] == init;
        init + [last]
      else
        init
  }

  /** Selecting from a prefix gives a prefix of the selection. */
  lemma {:induction false} SelectPrefix<T>(s: seq<T>, p: T -> bool, k: nat)
    requires k <= |s|
    ensures |Select(s[..k], p)| <= |Select(s, p)|
    ensures Select(s[..k], p) == Select(s, p)[..|Select(s[..k], p)|]
    decreases |s|
  {
    if k == |s| {
      assert s[..k] == s;
    } else {
      var init := s[..|s| - 1];
      assert s[..k] == init[..k];
      SelectPrefix(init, p, k);
    }
  }

  /** Selection keeps the order of first occurrences. */
  lemma {:induction false} SelectKeepsFirstOrder<T>(s: seq<T>, p: T -> bool, x: T, y: T)
    requires x in Select(s, p) && y in Select(s, p)
    requires FirstIndex(Select(s, p), x) < FirstIndex(Select(s, p), y)
    ensures x in s && y in s && FirstIndex(s, x) < FirstIndex(s, y)
    decreases |s|
  {
    var init := s[..|s| - 1];
    var last := s[|s| - 1];
    var sel := Select(init, p);
    assert s == init + [last];
    FirstIndexAppend(init, [last]);
    FirstIndexAppend(sel, [last]);
    if y in sel {
      SelectKeepsFirstOrder(init, p, x, y);
    } else {
      assert y == last && y !in init;
      assert x in sel;
    }
  }

  lemma {:induction false} CountOfAppend<T>(a: seq<T>, b: seq<T>, x: T)
    ensures CountOf(a + b, x) == CountOf(a, x) + CountOf(b, x)
    decreases |a|
  {
    if |a| > 0 {
      assert (a + b)[0] == a[0];
      assert (a + b)[1..] == a[1..] + b;
      CountOfAppend(a[1..], b, x);
    } else {
      assert a + b == b;
    }
  }

  /** Selection keeps every occurrence of a satisfying element and drops
      every occurrence of the others. */
  lemma {:induction false} SelectCount<T>(s: seq<T>, p: T -> bool, x: T)
    ensures CountOf(Select(s, p), x) == if p(x) then CountOf(s, x) else 0
    decreases |s|
  {
    if |s| > 0 {
      var init := s[..|s| - 1];
      var last := s[|s| - 1];
      assert s == init + [last];
      assert [last][1..] == [];
      SelectCount(init, p, x);
      CountOfAppend(init, [last], x);
      if p(last) {
        CountOfAppend(Select(init, p), [last], x);
      }
    } else {
      assert Select(s, p) == [];
    }
  }

  /** The distinct elements of `s` in order of first occurrence, as Python's
      `dict.fromkeys` or a `Counter` lists its keys. */
  function Unique<T(==)>(s: seq<T>): (r: seq<T>)
    ensures forall i :: 0 <= i < |r| ==> r[i] in s
    ensures forall i :: 0 <= i < |s| ==> s[i] in r
    ensures NoDuplicates(r)
    ensures forall i, j :: 0 <= i < j < |r| ==> FirstIndex(s, r[i]) < FirstIndex(s, r[j])
    decreases |s|
  {
    if |s| == 0 then []
    else
      var init := s[..|s| - 1];
      var u := Unique(init);
      var last := s[|s| - 1];
      assert s == init + [last];
      FirstIndexAppend(init, [last]);
      if last in u then u
      else
        assert FirstIndex(s, last) == |init|;
        u + [last]
  }

  /** The `Unique` of a prefix is a prefix of the `Unique` of the whole. */
  lemma {:induction false} UniquePrefix<T>(s: seq<T>, k: nat)
    requires k <= |s|
    ensures |Unique(s[..k])| <= |Unique(s)|
    ensures Unique(s[..k]) == Unique(s)[..|Unique(s[..k])|]
    decreases |s|
  {
    if k == |s| {
      assert s[..k] == s;
    } else {
      var init := s[..|s| - 1];
      assert s[..k] == init[..k];
      UniquePrefix(init, k);
      UniqueOfInit(s);
      PrefixOfPrefix(Unique(s), Unique(init), Unique(s[..k]));
    }
  }

  lemma PrefixOfPrefix<T>(a: seq<T>, b: seq<T>, c: seq<T>)
    requires |b| <= |a| && b == a[..|b|]
    requires |c| <= |b| && c == b[..|c|]
    ensures |c| <= |a| && c == a[..|c|]
  {
  }

  /** Dropping the last element keeps a prefix of the `Unique`. */
  lemma UniqueOfInit<T>(s: seq<T>)
    requires |s| > 0
    ensures |Unique(s[..|s| - 1])| <= |Unique(s)|
    ensures Unique(s[..|s| - 1]) == Unique(s)[..|Unique(s[..|s| - 1])|]
  {
    var u := Unique(s[..|s| - 1]);
    assert Unique(s) == u || Unique(s) == u + [s[|s| - 1]];
    assert (u + [s[|s| - 1]])[..|u|] == u;
  }

  // ---------------------------------------------------------------------
  // Splitting and joining

  /** Python's `s.split(c)` for a single separator character: always at
      least one part, and the parts never contain `c`. */
  function Split(s: string, c: char): (r: seq<string>)
    ensures |r| >= 1
    ensures forall k :: 0 <= k < |r| ==> c !in r[k]
    decreases |s|
  {
    if |s| == 0 then [""]
    else
      var rest := Split(s[1..], c);
      if s[0] == c then [""] + rest
      else [[s[0]] + rest[0]] + rest[1..]
  }

  /** Python's `sep.join(parts)`. */
  function Join(parts: seq<string>, sep: string): string
    decreases |parts|
  {
    if |parts| == 0 then ""
    else if |parts| == 1 then parts[0]
    else parts[0] + sep + Join(parts[1..], sep)
  }

  /** Joining two or more parts puts the separator after the first. */
  lemma JoinUnfold(parts: seq<string>, sep: string)
    requires |parts| > 1
    ensures Join(parts, sep) == parts[0] + (sep + Join(parts[1..], sep))
  {
    AppendAssoc(parts[0], sep, Join(parts[1..], sep));
  }

  lemma AppendAssoc<T>(a: seq<T>, b: seq<T>, c: seq<T>)
    ensures a + b + c == a + (b + c)
  {
  }

  /** Splitting text that begins with a separator-free word and a separator. */
  lemma {:induction false} SplitWordThenSep(a: string, c: char, t: string)
    requires c !in a
    ensures Split(a + [c] + t, c) == [a] + Split(t, c)
    decreases |a|
  {
    if |a| == 0 {
      assert a + [c] + t == [c] + t;
      assert ([c] + t)[1..] == t;
    } else {
      assert (a + [c] + t)[1..] == a[1..] + [c] + t;
      SplitWordThenSep(a[1..], c, t);
      assert [a[0]] + a[1..] == a;
    }
  }

  /** Splitting separator-free text gives the text back as the only part. */
  lemma {:induction false} SplitWithoutSep(a: string, c: char)
    requires c !in a
    ensures Split(a, c) == [a]
    decreases |a|
  {
    if |a| > 0 {
      SplitWithoutSep(a[1..], c);
      assert [a[0]] + a[1..] == a;
    }
  }

  /** Splitting a join recovers the parts, when no part holds the separator. */
  lemma {:induction false} SplitJoin(parts: seq<string>, c: char)
    requires |parts| >= 1
    requires forall k :: 0 <= k < |parts| ==> c !in parts[k]
    ensures Split(Join(parts, [c]), c) == parts
    decreases |parts|
  {
    if |parts| == 1 {
      SplitWithoutSep(parts[0], c);
    } else {
      SplitJoin(parts[1..], c);
      SplitWordThenSep(parts[0], c, Join(parts[1..], [c]));
      assert parts == [parts[0]] + parts[1..];
    }
  }

  /** Each part of a split is the text between two consecutive separators:
      part `m` starts right after the `m`-th separator (or at the start) and
      is followed by the next separator or the end of the text. */
  lemma {:induction false} SplitPartPosition(s: string, c: char, m: nat)
    requires m < |Split(s, c)|
    ensures exists k :: PartAt(s, c, m, k, Split(s, c)[m])
    decreases |s|
  {
    if |s| == 0 {
      assert m == 0 && Split(s, c)[m] == "";
      assert PartAt(s, c, m, 0, Split(s, c)[m]);
    } else {
      var t := s[1..];
      var rest := Split(t, c);
      if s[0] == c && m == 0 {
        assert Split(s, c)[0] == "";
        assert s[..0] == [] && s[0..] == s;
        assert PartAt(s, c, 0, 0, "");
      } else if s[0] == c {
        SplitPartPosition(t, c, m - 1);
        var k' :| PartAt(t, c, m - 1, k', rest[m - 1]);
        PartAfterSeparator(s, c, m, k');
      } else if m == 0 {
        SplitPartPosition(t, c, 0);
        var k' :| PartAt(t, c, 0, k', rest[0]);
        FirstPartExtended(s, c);
      } else {
        SplitPartPosition(t, c, m);
        var k' :| PartAt(t, c, m, k', rest[m]);
        LaterPartShifted(s, c, m, k');
      }
    }
  }

  lemma PartAfterSeparator(s: string, c: char, m: nat, k: int)
    requires |s| > 0 && s[0] == c && 0 < m < |Split(s, c)|
    requires PartAt(s[1..], c, m - 1, k, Split(s[1..], c)[m - 1])
    ensures PartAt(s, c, m, k + 1, Split(s, c)[m])
  {
    var rest := Split(s[1..], c);
    assert Split(s, c)[m] == rest[m - 1];
    PartAtShift(s, c, m - 1, k, rest[m - 1]);
  }

  lemma FirstPartExtended(s: string, c: char)
    requires |s| > 0 && s[0] != c
    requires PartAt(s[1..], c, 0, 0, Split(s[1..], c)[0])
    ensures PartAt(s, c, 0, 0, Split(s, c)[0])
  {
    var rest := Split(s[1..], c);
    assert Split(s, c)[0] == [s[0]] + rest[0];
    PartAtExtendFirst(s, c, rest[0]);
  }

  lemma LaterPartShifted(s: string, c: char, m: nat, k: int)
    requires |s| > 0 && s[0] != c && 0 < m < |Split(s, c)|
    requires PartAt(s[1..], c, m, k, Split(s[1..], c)[m])
    ensures PartAt(s, c, m, k + 1, Split(s, c)[m])
  {
    var rest := Split(s[1..], c);
    assert Split(s, c)[m] == rest[m];
    PartAtShift(s, c, m, k, rest[m]);
  }

  /** A part found in the tail of `s` is found one place later in `s`,
      after one more separator when `s` starts with one. */
  lemma PartAtShift(s: string, c: char, m: nat, k: int, part: string)
    requires |s| > 0 && PartAt(s[1..], c, m, k, part)
    requires m > 0 || s[0] == c
    ensures PartAt(s, c, m + (if s[0] == c then 1 else 0), k + 1, part)
  {
    var t := s[1..];
    assert s[..k + 1][1..] == t[..k];
    assert s[k + 1..] == t[k..];
    assert s[k] == (if k == 0 then s[0] else t[k - 1]);
  }

  /** The first part of the tail of `s`, prefixed with the non-separator
      `s[0]`, is the first part of `s`. */
  lemma PartAtExtendFirst(s: string, c: char, part: string)
    requires |s| > 0 && s[0] != c && PartAt(s[1..], c, 0, 0, part)
    ensures PartAt(s, c, 0, 0, [s[0]] + part)
  {
    var t := s[1..];
    assert s == [s[0]] + t;
    assert s[..0] == [];
  }

  /** `part` occurs in `s` at index `k`, which follows exactly `m`
      separators, and is followed by a separator or the end of `s`. */
  predicate PartAt(s: string, c: char, m: nat, k: int, part: string) {
    && 0 <= k <= |s|
    && CountOf(s[..k], c) == m
    && (m == 0 ==> k == 0)
    && (m > 0 ==> k > 0 && s[k - 1] == c)
    && StartsWith(s[k..], part)
    && (k + |part| == |s| || s[k + |part|] == c)
  }

  /** A split has one part more than the text has separators. */
  lemma {:induction false} SplitLength(s: string, c: char)
    ensures |Split(s, c)| == CountOf(s, c) + 1
    decreases |s|
  {
    if |s| > 0 {
      SplitLength(s[1..], c);
    }
  }

  // ---------------------------------------------------------------------
  // The ", "-joined lists the enrichment stores

  /** Reads back a list written by `", ".join(items)`. */
  function ParseList(s: string): seq<string> {
    if |s| == 0 then []
    else
      var parts := Split(s, ',');
      [parts[0]] + seq(|parts| - 1, k requires 0 <= k < |parts| - 1 => DropFirst(parts[k + 1]))
  }

  function DropFirst(s: string): string {
    if |s| == 0 then s else s[1..]
  }

  predicate ListItem(w: string) {
    |w| > 0 && ',' !in w
  }

  /** Every comma is followed by a space, as in text written by
      `", ".join`. */
  predicate CommasSpaced(s: string) {
    forall i :: 0 <= i < |s| && s[i] == ',' ==> i + 1 < |s| && s[i + 1] == ' '
  }

  /** Joining comma-free items with ", " puts a space after every comma. */
  lemma {:induction false} JoinCommasSpaced(items: seq<string>)
    requires forall k :: 0 <= k < |items| ==> ',' !in items[k]
    ensures CommasSpaced(Join(items, ", "))
    decreases |items|
  {
    if |items| > 1 {
      var a, j := items[0], Join(items[1..], ", ");
      JoinCommasSpaced(items[1..]);
      JoinUnfold(items, ", ");
      var s := a + (", " + j);
      assert forall i :: 0 <= i < |a| ==> s[i] == a[i];
      assert s[|a|] == ',' && s[|a| + 1] == ' ';
      assert forall i :: |a| + 2 <= i < |s| ==> s[i] == j[i - |a| - 2];
    }
  }

  /** `", ".join(items)` is read back by `ParseList` when every item is
      non-empty and free of commas. */
  lemma {:induction false} ParseJoinedList(items: seq<string>)
    requires forall k :: 0 <= k < |items| ==> ListItem(items[k])
    ensures ParseList(Join(items, ", ")) == items
    decreases |items|
  {
    if |items| == 1 {
      SplitWithoutSep(items[0], ',');
    } else if |items| > 1 {
      var a := items[0];
      var tail := items[1..];
      var j := Join(tail, ", ");
      ParseJoinedList(tail);
      assert Join(items, ", ") == a + [','] + (" " + j);
      SplitWordThenSep(a, ',', " " + j);
      var rest := Split(j, ',');
      assert |j| > 0 by { assert |tail[0]| > 0; JoinFirstPart(tail, ", "); }
      assert Split(" " + j, ',') == [" " + rest[0]] + rest[1..] by {
        assert (" " + j)[1..] == j;
      }
      var parts := Split(Join(items, ", "), ',');
      assert parts == [a] + Split(" " + j, ',');
      var parsed := ParseList(Join(items, ", "));
      assert |parsed| == |items|;
      forall k | 0 <= k < |items| ensures parsed[k] == items[k] {
        if k == 1 {
          assert parts[1] == " " + rest[0];
          assert DropFirst(" " + rest[0]) == rest[0];
          assert ParseList(j)[0] == rest[0];
        } else if k > 1 {
          assert parts[k] == rest[k - 1];
          assert ParseList(j)[k - 1] == DropFirst(rest[k - 1]);
        }
      }
    }
  }

  /** A join starts with its first part. */
  lemma JoinFirstPart(parts: seq<string>, sep: string)
    requires |parts| > 0
    ensures |Join(parts, sep)| >= |parts[0]|
    ensures Join(parts, sep)[..|parts[0]|] == parts[0]
  {
  }
}
