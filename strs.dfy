/**
 * The small part of Go's `strings`/`bytes` packages that the site generator
 * relies on, written out so that its behaviour can be reasoned about:
 * prefix and suffix tests, whitespace trimming, splitting on a one-character
 * separator, joining, first-occurrence search and replacement, byte-wise
 * string order and sorting.
 */
module Strs {

  predicate HasPrefix(s: string, p: string) {
    |p| <= |s| && s[..|p|] == p
  }

  predicate HasSuffix(s: string, p: string) {
    |p| <= |s| && s[|s| - |p|..] == p
  }

  /** unicode.IsSpace, which strings.TrimSpace uses. */
  predicate IsSpace(c: char) {
    c == ' ' || c == '\t' || c == '\n' || c == '\r' || c == '\U{0B}' || c == '\U{0C}'
    || c == '\U{85}' || c == '\U{A0}' || c == '\U{1680}' || ('\U{2000}' <= c <= '\U{200A}')
    || c == '\U{2028}' || c == '\U{2029}' || c == '\U{202F}' || c == '\U{205F}' || c == '\U{3000}'
  }

  function TrimLeftSpace(s: string): (r: string)
    ensures |r| <= |s| && r == s[|s| - |r|..]
    ensures r == [] || !IsSpace(r[0])
  {
    if |s| > 0 && IsSpace(s[0]) then TrimLeftSpace(s[1..]) else s
  }

  function TrimRightSpace(s: string): (r: string)
    ensures |r| <= |s| && r == s[..|r|]
    ensures r == [] || !IsSpace(r[|r| - 1])
  {
    if |s| > 0 && IsSpace(s[|s| - 1]) then TrimRightSpace(s[..|s| - 1]) else s
  }

  /** A string with no leading and no trailing white space. */
  predicate Trimmed(s: string) {
    s == [] || (!IsSpace(s[0]) && !IsSpace(s[|s| - 1]))
  }

  /** strings.TrimSpace. */
  function TrimSpace(s: string): (r: string)
    ensures Trimmed(r)
    ensures Trimmed(s) ==> r == s
  {
    var l := TrimLeftSpace(s);
    var r := TrimRightSpace(l);
    assert r != [] ==> r[0] == l[0];
    r
  }

  /** strings.Split(s, string(c)): the pieces between occurrences of `c`. */
  function Split(s: string, c: char): (parts: seq<string>)
    ensures |parts| > 0
    ensures forall i :: 0 <= i < |parts| ==> c !in parts[i]
  {
    SplitFrom(s, c, [])
  }

  // `acc` is the piece read so far, not containing `c`.
  function SplitFrom(s: string, c: char, acc: string): (parts: seq<string>)
    requires c !in acc
    ensures |parts| > 0
    ensures forall i :: 0 <= i < |parts| ==> c !in parts[i]
    decreases |s|
  {
    if s == [] then [acc]
    else if s[0] == c then [acc] + SplitFrom(s[1..], c, [])
    else SplitFrom(s[1..], c, acc + [s[0]])
  }

  /** strings.Join. */
  function Join(parts: seq<string>, sep: string): (r: string)
  {
    if parts == [] then []
    else if |parts| == 1 then parts[0]
    else parts[0] + sep + Join(parts[1..], sep)
  }

  lemma {:induction false} SplitFromNoSep(s: string, c: char, acc: string)
    requires c !in acc && c !in s
    ensures SplitFrom(s, c, acc) == [acc + s]
    decreases |s|
  {
    if s != [] {
      assert s[0] != c && c !in s[1..] && c !in acc + [s[0]] by {
        assert s == [s[0]] + s[1..];
      }
      SplitFromNoSep(s[1..], c, acc + [s[0]]);
      assert acc + [s[0]] + s[1..] == acc + s;
    } else {
      assert acc + s == acc;
    }
  }

  lemma {:induction false} SplitFromAppend(a: string, rest: string, c: char, acc: string)
    requires c !in acc && c !in a
    ensures SplitFrom(a + [c] + rest, c, acc) == [acc + a] + SplitFrom(rest, c, [])
    decreases |a|
  {
    if a == [] {
      assert a + [c] + rest == [c] + rest;
      assert (a + [c] + rest)[1..] == rest;
      assert acc + a == acc;
    } else {
      assert (a + [c] + rest)[0] == a[0] && a[0] != c;
      assert (a + [c] + rest)[1..] == a[1..] + [c] + rest;
      assert c !in a[1..] && c !in acc + [a[0]] by {
        assert a == [a[0]] + a[1..];
      }
      SplitFromAppend(a[1..], rest, c, acc + [a[0]]);
      assert acc + [a[0]] + a[1..] == acc + a;
    }
  }

  /** Splitting a join on a separator that no part contains gives the parts back. */
  lemma {:induction false} SplitJoin(parts: seq<string>, c: char)
    requires |parts| > 0
    requires forall i :: 0 <= i < |parts| ==> c !in parts[i]
    ensures Split(Join(parts, [c]), c) == parts
  {
    if |parts| == 1 {
      SplitFromNoSep(parts[0], c, []);
    } else {
      SplitJoin(parts[1..], c);
      SplitFromAppend(parts[0], Join(parts[1..], [c]), c, []);
      assert Join(parts, [c]) == parts[0] + [c] + Join(parts[1..], [c]);
      assert [] + parts[0] == parts[0];
      assert parts == [parts[0]] + parts[1..];
    }
  }

  lemma SplitNoSep(s: string, c: char)
    requires c !in s
    ensures Split(s, c) == [s]
  {
    SplitFromNoSep(s, c, []);
    assert [] + s == s;
  }

  /** `p` occurs in `s` at position `j`. */
  predicate OccursAt(s: string, p: string, j: int) {
    0 <= j <= |s| - |p| && s[j..j + |p|] == p
  }

  /** bytes.Index / strings.Index: the first position of `p` in `s`, or -1. */
  function Index(s: string, p: string): (i: int)
    ensures -1 <= i && (i >= 0 ==> i <= |s| - |p|)
    ensures i >= 0 ==> OccursAt(s, p, i)
    ensures i >= 0 ==> forall j :: 0 <= j < i ==> !OccursAt(s, p, j)
    ensures i == -1 ==> forall j :: !OccursAt(s, p, j)
  {
    IndexFrom(s, p, 0)
  }

  function IndexFrom(s: string, p: string, k: nat): (i: int)
    requires forall j :: 0 <= j < k ==> !OccursAt(s, p, j)
    ensures -1 <= i && (i >= 0 ==> i <= |s| - |p|)
    ensures i >= 0 ==> k <= i && OccursAt(s, p, i)
    ensures i >= 0 ==> forall j :: 0 <= j < i ==> !OccursAt(s, p, j)
    ensures i == -1 ==> forall j :: !OccursAt(s, p, j)
    decreases |s| - k
  {
    if k + |p| > |s| then -1
    else if s[k..k + |p|] == p then k
    else IndexFrom(s, p, k + 1)
  }

  /** A prefix is found at position 0. */
  lemma OccursAtStart(s: string, p: string)
    requires HasPrefix(s, p)
    ensures Index(s, p) == 0
  {
    assert OccursAt(s, p, 0);
  }

  /** Searching past the first n characters finds the same occurrence, when it lies beyond them. */
  lemma IndexAfterSkip(t: string, p: string, n: nat)
    requires n <= |t| && (Index(t, p) < 0 || Index(t, p) >= n)
    ensures Index(t[n..], p) == if Index(t, p) < 0 then -1 else Index(t, p) - n
  {
    var body := t[n..];
    forall j ensures OccursAt(body, p, j) <==> OccursAt(t, p, j + n) {
      if 0 <= j <= |body| - |p| {
        assert body[j..j + |p|] == t[j + n..j + n + |p|];
      }
    }
    var right := Index(t, p);
    if right >= 0 {
      assert OccursAt(body, p, right - n);
    } else {
      assert forall j :: !OccursAt(body, p, j);
    }
  }

  /** Replacing the first occurrence of a prefix swaps that prefix. */
  lemma ReplacePrefix(s: string, pat: string, rep: string)
    requires HasPrefix(s, pat)
    ensures ReplaceFirst(s, pat, rep) == rep + s[|pat|..]
  {
    OccursAtStart(s, pat);
  }

  /** strings.Replace(s, pat, rep, 1): replace the first occurrence only. */
  function ReplaceFirst(s: string, pat: string, rep: string): (r: string)
  {
    var i := Index(s, pat);
    if i < 0 then s else s[..i] + rep + s[i + |pat|..]
  }

  /** strings.Replace(s, pat, rep, -1) for a non-empty `pat`: every occurrence, left to right. */
  function ReplaceAll(s: string, pat: string, rep: string): (r: string)
    requires |pat| > 0
    decreases |s|
  {
    var i := Index(s, pat);
    if i < 0 then s else s[..i] + rep + ReplaceAll(s[i + |pat|..], pat, rep)
  }

  /** An occurrence that ends inside `x` is an occurrence in `x + y` and back. */
  lemma OccursInPrefix(x: string, y: string, p: string, j: int)
    requires 0 <= j && j + |p| <= |x|
    ensures OccursAt(x + y, p, j) <==> OccursAt(x, p, j)
  {
    assert (x + y)[j..j + |p|] == x[j..j + |p|];
  }

  /** `pat` does not occur in `x + pat` before the end of `x`. */
  predicate NoEarlyOccurrence(x: string, pat: string) {
    NoOccurrenceBefore(x + pat, pat, |x|)
  }

  predicate NoOccurrenceBefore(s: string, pat: string, n: int) {
    forall j :: 0 <= j < n ==> !OccursAt(s, pat, j)
  }

  /** In x + pat + rest, with no earlier occurrence, the first `pat` found is the one after x. */
  lemma FirstOccurrence(x: string, pat: string, rest: string)
    requires NoEarlyOccurrence(x, pat)
    ensures var s := x + pat + rest;
      Index(s, pat) == |x| && s[..|x|] == x && s[|x| + |pat|..] == rest
  {
    var s := x + pat + rest;
    forall j | 0 <= j < |x|
      ensures !OccursAt(s, pat, j)
    {
      OccursInPrefix(x + pat, rest, pat, j);
    }
    assert OccursAt(s, pat, |x|);
  }

  /**
   * ReplaceAll replaces every occurrence: a string made of parts joined by
   * `pat`, where no part starts an earlier occurrence, comes out as the
   * same parts joined by `rep`.
   */
  lemma {:induction false} ReplaceAllJoin(parts: seq<string>, pat: string, rep: string)
    requires |pat| > 0 && |parts| > 0
    requires forall k :: 0 <= k < |parts| - 1 ==> NoEarlyOccurrence(parts[k], pat)
    requires Index(parts[|parts| - 1], pat) == -1
    ensures ReplaceAll(Join(parts, pat), pat, rep) == Join(parts, rep)
    decreases |parts|
  {
    if |parts| > 1 {
      var x, rest := parts[0] + pat, Join(parts[1..], pat);
      var s := Join(parts, pat);
      assert s == parts[0] + pat + rest;
      assert NoEarlyOccurrence(parts[0], pat);
      FirstOccurrence(parts[0], pat, rest);
      var tail := parts[1..];
      assert forall k :: 0 <= k < |tail| ==> tail[k] == parts[k + 1];
      ReplaceAllJoin(tail, pat, rep);
    }
  }

  /** Go's `<` on strings: byte-wise lexicographic (code-point order equals UTF-8 byte order). */
  predicate Less(a: string, b: string)
    decreases |a|
  {
    if a == [] then b != []
    else if b == [] then false
    else if a[0] != b[0] then a[0] < b[0]
    else Less(a[1..], b[1..])
  }

  lemma {:induction false} LessIrreflexive(a: string)
    ensures !Less(a, a)
    decreases |a|
  {
    if a != [] { LessIrreflexive(a[1..]); }
  }

  lemma {:induction false} LessTotal(a: string, b: string)
    ensures a == b || Less(a, b) || Less(b, a)
    decreases |a|
  {
    if a != [] && b != [] && a[0] == b[0] {
      LessTotal(a[1..], b[1..]);
      if a[1..] == b[1..] { assert a == [a[0]] + a[1..] && b == [b[0]] + b[1..]; }
    }
  }

  lemma {:induction false} LessAsym(a: string, b: string)
    ensures !(Less(a, b) && Less(b, a))
    decreases |a|
  {
    if a != [] && b != [] && a[0] == b[0] { LessAsym(a[1..], b[1..]); }
  }

  lemma {:induction false} LessTrans(a: string, b: string, c: string)
    requires Less(a, b) && Less(b, c)
    ensures Less(a, c)
    decreases |a|
  {
    if a != [] && a[0] == b[0] && b[0] == c[0] { LessTrans(a[1..], b[1..], c[1..]); }
  }

  predicate LessEq(a: string, b: string) {
    a == b || Less(a, b)
  }

  predicate Sorted(s: seq<string>) {
    forall i, j :: 0 <= i < j < |s| ==> LessEq(s[i], s[j])
  }

  function Insert(x: string, s: seq<string>): (r: seq<string>)
    ensures multiset(r) == multiset(s) + multiset{x}
  {
    if s == [] || LessEq(x, s[0]) then [x] + s
    else
      assert s == [s[0]] + s[1..];
      [s[0]] + Insert(x, s[1..])
  }

  lemma {:induction false} InsertSorted(x: string, s: seq<string>)
    requires Sorted(s)
    ensures Sorted(Insert(x, s))
  {
    if s == [] || LessEq(x, s[0]) {
      var r := [x] + s;
      forall i, j | 0 <= i < j < |r| ensures LessEq(r[i], r[j]) {
        assert r[j] == s[j - 1];
        if i == 0 {
          assert LessEq(s[0], s[j - 1]);
          if x != s[0] && s[0] != s[j - 1] { LessTrans(x, s[0], s[j - 1]); }
        } else {
          assert r[i] == s[i - 1];
        }
      }
    } else {
      InsertSorted(x, s[1..]);
      var r := Insert(x, s[1..]);
      LessTotal(x, s[0]);
      assert Less(s[0], x);
      forall k | 0 <= k < |r| ensures LessEq(s[0], r[k]) {
        assert r[k] in multiset(r);
        assert r[k] == x || r[k] in multiset(s[1..]);
        if r[k] != x {
          var m :| 0 <= m < |s[1..]| && s[1..][m] == r[k];
          assert s[m + 1] == r[k];
        }
      }
    }
  }

  /** sort.Strings: ascending byte-wise order. */
  function Sort(s: seq<string>): (r: seq<string>)
    ensures multiset(r) == multiset(s)
  {
    if s == [] then []
    else
      assert s == [s[0]] + s[1..];
      Insert(s[0], Sort(s[1..]))
  }

  lemma {:induction false} SortSorted(s: seq<string>)
    ensures Sorted(Sort(s))
  {
    if s != [] {
      SortSorted(s[1..]);
      InsertSorted(s[0], Sort(s[1..]));
    }
  }

  // The first element of a sorted sequence is below every element of it.
  lemma SortedHeadLeast(a: seq<string>, x: string)
    requires Sorted(a) && x in a
    ensures LessEq(a[0], x)
  {
    var i :| 0 <= i < |a| && a[i] == x;
    if i > 0 { assert LessEq(a[0], a[i]); }
  }

  /** Two sorted sequences with the same elements are equal: the order of the input does not matter. */
  lemma {:induction false} SortedUnique(a: seq<string>, b: seq<string>)
    requires Sorted(a) && Sorted(b) && multiset(a) == multiset(b)
    ensures a == b
  {
    assert |a| == |multiset(a)| == |multiset(b)| == |b|;
    if a != [] {
      SortedHeadsEqual(a, b);
      SortedTail(a);
      SortedTail(b);
      MultisetTail(a);
      MultisetTail(b);
      SortedUnique(a[1..], b[1..]);
      assert a == [a[0]] + a[1..] && b == [b[0]] + b[1..];
    }
  }

  lemma SortedHeadsEqual(a: seq<string>, b: seq<string>)
    requires Sorted(a) && Sorted(b) && multiset(a) == multiset(b) && |a| > 0 && |b| > 0
    ensures a[0] == b[0]
  {
    assert a[0] in multiset(b) && b[0] in multiset(a);
    SortedHeadLeast(b, a[0]);
    SortedHeadLeast(a, b[0]);
    LessAsym(a[0], b[0]);
  }

  lemma SortedTail(a: seq<string>)
    requires Sorted(a) && |a| > 0
    ensures Sorted(a[1..])
  {
    forall i, j | 0 <= i < j < |a[1..]| ensures LessEq(a[1..][i], a[1..][j]) {
      assert a[1..][i] == a[i + 1] && a[1..][j] == a[j + 1];
    }
  }

  lemma MultisetTail(a: seq<string>)
    requires |a| > 0
    ensures multiset(a[1..]) == multiset(a) - multiset{a[0]}
  {
    assert a == [a[0]] + a[1..];
  }

  lemma SortPermutationInvariant(a: seq<string>, b: seq<string>)
    requires multiset(a) == multiset(b)
    ensures Sort(a) == Sort(b)
  {
    SortSorted(a);
    SortSorted(b);
    SortedUnique(Sort(a), Sort(b));
  }

  /** What the loops `for len(s) > 0 && s[0] == '/' { s = s[1:] }` leave. */
  function TrimLeadingSlashes(s: string): (r: string)
    ensures r == [] || r[0] != '/'
    ensures |r| <= |s| && r == s[|s| - |r|..]
    ensures forall i :: 0 <= i < |s| - |r| ==> s[i] == '/'
  {
    if |s| > 0 && s[0] == '/' then TrimLeadingSlashes(s[1..]) else s
  }
}
