/**
 * The heading-hierarchy tracker of gen/markdown/headingtracker.go.
 *
 * The tracker keeps a queue of "open lists": list i holds the headings of
 * level i+1 that are currently siblings on the path from the top level down
 * to the most recently added heading. Go shares Heading pointers between the
 * queue and the finished tree; here a heading is a value, and "set the
 * Children of the last heading of the parent list" is "replace that last
 * heading by a copy with those children" (AttachLast). Each heading is
 * referenced from exactly one list, so the two readings agree.
 *
 * The specification functions below (QueueAfterAdd, Nest, Headings) are what
 * the methods of HeadingTracker compute; the lemmas prove what the tracker
 * promises about them: the shape invariant, and that the finished tree lists
 * every added heading once, in document order.
 */
module MarkdownHeadings {

  /** gen/markdown/doc.go's Heading. A placeholder has an empty ID and name. */
  datatype Heading = Heading(level: int, id: string, name: string, children: seq<Heading>)

  /** A heading without its subtree: what a preorder walk of the tree visits. */
  datatype Entry = Entry(level: int, id: string, name: string)

  function EntryOf(h: Heading): Entry {
    Entry(h.level, h.id, h.name)
  }

  /** The unnamed heading that fills a skipped level. */
  function Placeholder(level: int): Heading {
    Heading(level, "", "", [])
  }

  /** One single-placeholder list for each level from `lo` to `hi - 1`. */
  function Gap(lo: int, hi: int): (g: seq<seq<Heading>>)
    ensures |g| == (if lo < hi then hi - lo else 0)
    ensures forall k :: 0 <= k < |g| ==> g[k] == [Placeholder(lo + k)]
  {
    if lo >= hi then [] else seq(hi - lo, k => [Placeholder(lo + k)])
  }

  /** The entries of the placeholders of Gap(lo, hi). */
  function GapEntries(lo: int, hi: int): seq<Entry>
    decreases hi - lo
  {
    if lo >= hi then [] else [Entry(lo, "", "")] + GapEntries(lo + 1, hi)
  }

  /** `l` with `c` as the children of its last heading. */
  function AttachLast(l: seq<Heading>, c: seq<Heading>): (r: seq<Heading>)
    requires |l| > 0
    ensures |r| == |l| && r[..|l| - 1] == l[..|l| - 1]
    ensures r[|l| - 1] == l[|l| - 1].(children := c)
  {
    l[..|l| - 1] + [l[|l| - 1].(children := c)]
  }

  predicate NonEmptyLists(q: seq<seq<Heading>>) {
    forall i :: 0 <= i < |q| ==> |q[i]| > 0
  }

  /**
   * The lists of `q` collapsed bottom-up: each list becomes the children of
   * the last heading of the list before it.
   */
  function Nest(q: seq<seq<Heading>>): (r: seq<Heading>)
    requires |q| > 0 && NonEmptyLists(q)
    ensures |r| == |q[0]|
    decreases |q|
  {
    if |q| == 1 then q[0] else AttachLast(q[0], Nest(q[1..]))
  }

  /** Preorder walk of a forest. */
  function Pre(hs: seq<Heading>): seq<Entry> {
    if hs == [] then [] else [EntryOf(hs[0])] + Pre(hs[0].children) + Pre(hs[1..])
  }

  /** Preorder of the queue read as one tree: the lists one after another. */
  function QPre(q: seq<seq<Heading>>): seq<Entry> {
    if q == [] then [] else Pre(q[0]) + QPre(q[1..])
  }

  /** The named entries, in order. */
  function Named(es: seq<Entry>): (r: seq<Entry>)
    ensures forall i :: 0 <= i < |r| ==> r[i].name != ""
  {
    if es == [] then []
    else if es[0].name != "" then [es[0]] + Named(es[1..])
    else Named(es[1..])
  }

  /** Every child of a level-L heading has level L+1, all the way down. */
  predicate WellLeveled(h: Heading) {
    forall i :: 0 <= i < |h.children| ==>
      h.children[i].level == h.level + 1 && WellLeveled(h.children[i])
  }

  /** A list of well-levelled headings all at level `level`. */
  predicate Forest(hs: seq<Heading>, level: int) {
    forall i :: 0 <= i < |hs| ==> hs[i].level == level && WellLeveled(hs[i])
  }

  /**
   * The queue from list `base - 1` on: list i is non-empty, holds well-levelled
   * headings of level base+i, and its last heading has no children yet.
   */
  predicate ShapedFrom(q: seq<seq<Heading>>, base: int) {
    Open(q) && forall i :: 0 <= i < |q| ==> Forest(q[i], base + i)
  }

  /** Every list is non-empty and its last heading has no children yet. */
  predicate Open(q: seq<seq<Heading>>) {
    forall i :: 0 <= i < |q| ==> |q[i]| > 0 && q[i][|q[i]| - 1].children == []
  }

  /** The tracker's invariant: list i holds level-(i+1) headings. */
  predicate Shaped(q: seq<seq<Heading>>) {
    ShapedFrom(q, 1)
  }

  /** The level of the last heading added; 0 before the first. */
  function LastLevel(q: seq<seq<Heading>>): int
    requires NonEmptyLists(q)
  {
    if q == [] then 0 else q[|q| - 1][|q[|q| - 1]| - 1].level
  }

  /**
   * What headingTracker.add(level, id, name) makes of the queue:
   * the first heading brings placeholder lists for levels 1..level-1;
   * a heading at the last level joins the top list;
   * a deeper one brings placeholder lists for the skipped levels and a new list;
   * a shallower one closes the deeper lists into their parents and joins the
   * list of its level.
   */
  function QueueAfterAdd(q: seq<seq<Heading>>, level: int, id: string, name: string): (r: seq<seq<Heading>>)
    requires Shaped(q) && level >= 1
    ensures Shaped(r) && |r| == level && LastLevel(r) == level
    ensures QPre(r) == QPre(q) + GapEntries(LastLevel(q) + 1, level) + [Entry(level, id, name)]
  {
    ShapedLastLevel(q);
    var h := Heading(level, id, name, []);
    if q == [] then AddDeeper(q, h)
    else
      var last := LastLevel(q);
      if level == last then AddSibling(q, h)
      else if level > last then AddDeeper(q, h)
      else AddShallower(q, h)
  }

  /** The first heading, or one deeper than the last: placeholder lists for the skipped levels, then [h]. */
  function AddDeeper(q: seq<seq<Heading>>, h: Heading): (r: seq<seq<Heading>>)
    requires Shaped(q) && h.level > |q| && h.children == []
    ensures r == q + Gap(|q| + 1, h.level) + [[h]]
    ensures Shaped(r) && |r| == h.level && LastLevel(r) == h.level
    ensures QPre(r) == QPre(q) + GapEntries(|q| + 1, h.level) + [EntryOf(h)]
  {
    AddDeeperCorrect(q, h);
    var r := q + Gap(|q| + 1, h.level) + [[h]];
    ShapedLastLevel(r);
    r
  }

  /** A heading at the last level joins the top list. */
  function AddSibling(q: seq<seq<Heading>>, h: Heading): (r: seq<seq<Heading>>)
    requires Shaped(q) && |q| > 0 && h.level == |q| && h.children == []
    ensures r == q[..|q| - 1] + [q[|q| - 1] + [h]]
    ensures Shaped(r) && |r| == h.level && LastLevel(r) == h.level
    ensures QPre(r) == QPre(q) + GapEntries(|q| + 1, h.level) + [EntryOf(h)]
  {
    AddSiblingCorrect(q, h);
    var r := q[..|q| - 1] + [q[|q| - 1] + [h]];
    ShapedLastLevel(r);
    r
  }

  /** A shallower heading: the deeper lists close into their parents, and it joins the list of its level. */
  function AddShallower(q: seq<seq<Heading>>, h: Heading): (r: seq<seq<Heading>>)
    requires Shaped(q) && 1 <= h.level < |q| && h.children == []
    ensures r == q[..h.level - 1] + [Nest(q[h.level - 1..]) + [h]]
    ensures Shaped(r) && |r| == h.level && LastLevel(r) == h.level
    ensures QPre(r) == QPre(q) + GapEntries(|q| + 1, h.level) + [EntryOf(h)]
  {
    AddShallowerShape(q, h);
    AddShallowerPreorder(q, h);
    var r := q[..h.level - 1] + [Nest(q[h.level - 1..]) + [h]];
    ShapedLastLevel(r);
    r
  }

  /** The preorder an add sequence must produce: each heading preceded by placeholders for the levels it skips. */
  function Expected(added: seq<Entry>): seq<Entry> {
    if added == [] then []
    else
      var prev := added[..|added| - 1];
      Expected(prev) + GapEntries(LastAdded(prev) + 1, added[|added| - 1].level) + [added[|added| - 1]]
  }

  function LastAdded(added: seq<Entry>): int {
    if added == [] then 0 else added[|added| - 1].level
  }

  /** The index of the first list that is not a lone unnamed heading, at or after `i`. */
  function FirstReal(q: seq<seq<Heading>>, i: nat): (k: nat)
    requires NonEmptyLists(q)
    ensures i <= |q| ==> i <= k <= |q|
    ensures forall j :: i <= j < k && j < |q| ==> |q[j]| == 1 && q[j][0].name == ""
    ensures k < |q| ==> |q[k]| > 1 || q[k][0].name != ""
    decreases |q| - i
  {
    if i >= |q| then i
    else if |q[i]| > 1 || q[i][0].name != "" then i
    else FirstReal(q, i + 1)
  }

  /**
   * What getHeadings returns, as written: the queue without its leading lone
   * unnamed lists, collapsed into one tree. Go indexes queue[0] of the trimmed
   * queue, so the source needs some list to survive the trim.
   */
  function HeadingsAsWritten(q: seq<seq<Heading>>): (hs: seq<Heading>)
    requires NonEmptyLists(q) && FirstReal(q, 0) < |q|
    ensures |hs| == |q[FirstReal(q, 0)]| > 0
  {
    Nest(q[FirstReal(q, 0)..])
  }

  /** getHeadings with the empty-result case handled: [] when no list survives the trim. */
  function Headings(q: seq<seq<Heading>>): (hs: seq<Heading>)
    requires NonEmptyLists(q)
    ensures hs == [] <==> FirstReal(q, 0) == |q|
  {
    if FirstReal(q, 0) < |q| then HeadingsAsWritten(q) else []
  }

  // ---------------------------------------------------------------- lemmas

  /** The first add: unnamed placeholders at levels 1..level-1, each alone in its list, then [h]. */
  lemma FirstAdd(level: int, id: string, name: string)
    requires level >= 1
    ensures var r := QueueAfterAdd([], level, id, name);
      && |r| == level
      && (forall i :: 0 <= i < level - 1 ==> r[i] == [Placeholder(i + 1)])
      && r[level - 1] == [Heading(level, id, name, [])]
  {
  }

  /** An add at the last level appends to the top list; nothing else changes. */
  lemma SameLevelAdd(q: seq<seq<Heading>>, level: int, id: string, name: string)
    requires Shaped(q) && |q| > 0 && level == LastLevel(q)
    ensures var r := QueueAfterAdd(q, level, id, name);
      r == q[..|q| - 1] + [q[|q| - 1] + [Heading(level, id, name, [])]]
  {
  }

  /** A deeper add pushes one single-placeholder list per skipped level, then [h]; the old lists are unchanged. */
  lemma DeeperAdd(q: seq<seq<Heading>>, level: int, id: string, name: string)
    requires Shaped(q) && |q| > 0 && level > LastLevel(q)
    ensures var r := QueueAfterAdd(q, level, id, name);
      && r[..|q|] == q
      && (forall i :: |q| <= i < level - 1 ==> r[i] == [Placeholder(i + 1)])
      && r[level - 1] == [Heading(level, id, name, [])]
  {
    ShapedLastLevel(q);
    var h := Heading(level, id, name, []);
    assert QueueAfterAdd(q, level, id, name) == AddDeeper(q, h);
    GapAppended(q, h, AddDeeper(q, h));
  }

  lemma GapAppended(q: seq<seq<Heading>>, h: Heading, r: seq<seq<Heading>>)
    requires h.level > |q| && r == q + Gap(|q| + 1, h.level) + [[h]]
    ensures r[..|q|] == q
    ensures forall i :: |q| <= i < h.level - 1 ==> r[i] == [Placeholder(i + 1)]
    ensures r[h.level - 1] == [h]
  {
    var g := Gap(|q| + 1, h.level);
    forall i | |q| <= i < h.level - 1 ensures r[i] == [Placeholder(i + 1)] {
      assert r[i] == g[i - |q|];
    }
  }

  /**
   * A shallower add keeps the lists above its level, closes the deeper lists
   * into the last heading of the list of its level, and appends h there.
   */
  lemma ShallowerAdd(q: seq<seq<Heading>>, level: int, id: string, name: string)
    requires Shaped(q) && 1 <= level < LastLevel(q)
    ensures NonEmptyLists(q[level - 1..])
    ensures var r := QueueAfterAdd(q, level, id, name);
      && r[..level - 1] == q[..level - 1]
      && r[level - 1] == AttachLast(q[level - 1], Nest(q[level..])) + [Heading(level, id, name, [])]
  {
    ShapedLastLevel(q);
    assert q[level - 1..][1..] == q[level..];
  }


  lemma ShapedLastLevel(q: seq<seq<Heading>>)
    requires Shaped(q)
    ensures LastLevel(q) == |q|
  {
    if q != [] {
      var top := q[|q| - 1];
      assert Forest(top, |q|);
    }
  }

  lemma ShapedSuffix(q: seq<seq<Heading>>, base: int, k: nat)
    requires ShapedFrom(q, base) && k <= |q|
    ensures ShapedFrom(q[k..], base + k)
  {
    forall i | 0 <= i < |q[k..]|
      ensures |q[k..][i]| > 0 && Forest(q[k..][i], base + k + i)
    {
      assert q[k..][i] == q[k + i];
    }
  }

  lemma OpenSuffix(q: seq<seq<Heading>>, k: nat)
    requires Open(q) && k <= |q|
    ensures Open(q[k..])
  {
    forall i | 0 <= i < |q[k..]| ensures |q[k..][i]| > 0 {
      assert q[k..][i] == q[k + i];
    }
  }

  lemma GapShaped(lo: int, hi: int)
    ensures ShapedFrom(Gap(lo, hi), lo)
  {
    var g := Gap(lo, hi);
    forall i | 0 <= i < |g| ensures Forest(g[i], lo + i) {
      assert g[i] == [Placeholder(lo + i)];
    }
  }

  lemma AttachLastForest(l: seq<Heading>, c: seq<Heading>, level: int)
    requires |l| > 0 && Forest(l, level) && Forest(c, level + 1)
    ensures Forest(AttachLast(l, c), level)
  {
    var r := AttachLast(l, c);
    forall i | 0 <= i < |r| ensures r[i].level == level && WellLeveled(r[i]) {
      if i < |l| - 1 { assert r[i] == l[..|l| - 1][i] == l[i]; }
    }
  }

  lemma {:induction false} NestForest(q: seq<seq<Heading>>, base: int)
    requires |q| > 0 && ShapedFrom(q, base)
    ensures Forest(Nest(q), base)
    decreases |q|
  {
    if |q| > 1 {
      ShapedSuffix(q, base, 1);
      NestForest(q[1..], base + 1);
      AttachLastForest(q[0], Nest(q[1..]), base);
    }
  }

  lemma {:induction false} PreAppend(a: seq<Heading>, b: seq<Heading>)
    ensures Pre(a + b) == Pre(a) + Pre(b)
  {
    if a == [] {
      assert a + b == b;
    } else {
      assert (a + b)[0] == a[0] && (a + b)[1..] == a[1..] + b;
      PreAppend(a[1..], b);
    }
  }

  lemma PreAttachLast(l: seq<Heading>, c: seq<Heading>)
    requires |l| > 0 && l[|l| - 1].children == []
    ensures Pre(AttachLast(l, c)) == Pre(l) + Pre(c)
  {
    var init, last := l[..|l| - 1], l[|l| - 1];
    assert l == init + [last];
    PreAppend(init, [last]);
    PreAppend(init, [last.(children := c)]);
    assert Pre([last]) == [EntryOf(last)] + Pre(last.children) + Pre([]);
    assert Pre([last.(children := c)]) == [EntryOf(last)] + Pre(c) + Pre([]);
  }

  /** Collapsing the queue keeps the preorder: it is the lists' preorders one after another. */
  lemma {:induction false} NestPreorder(q: seq<seq<Heading>>)
    requires |q| > 0 && Open(q)
    ensures Pre(Nest(q)) == QPre(q)
    decreases |q|
  {
    if |q| == 1 {
      assert QPre(q[1..]) == [];
    } else {
      OpenSuffix(q, 1);
      NestPreorder(q[1..]);
      PreAttachLast(q[0], Nest(q[1..]));
    }
  }

  lemma {:induction false} QPreAppend(a: seq<seq<Heading>>, b: seq<seq<Heading>>)
    ensures QPre(a + b) == QPre(a) + QPre(b)
  {
    if a == [] {
      assert a + b == b;
    } else {
      assert (a + b)[0] == a[0] && (a + b)[1..] == a[1..] + b;
      QPreAppend(a[1..], b);
    }
  }

  lemma {:induction false} GapPreorder(lo: int, hi: int)
    ensures QPre(Gap(lo, hi)) == GapEntries(lo, hi)
    decreases hi - lo
  {
    if lo < hi {
      GapPreorder(lo + 1, hi);
      var g := Gap(lo, hi);
      assert g[1..] == Gap(lo + 1, hi);
      assert Pre(g[0]) == [Entry(lo, "", "")] + Pre([]) + Pre([]);
    }
  }

  lemma PreSingle(h: Heading)
    requires h.children == []
    ensures Pre([h]) == [EntryOf(h)]
  {
    assert Pre([h]) == [EntryOf(h)] + Pre([]) + Pre([]);
  }

  lemma QPreSingle(h: Heading)
    requires h.children == []
    ensures QPre([[h]]) == [EntryOf(h)]
  {
    PreSingle(h);
    assert QPre([[h]]) == Pre([h]) + QPre([]);
  }

  lemma ShapedConcat(a: seq<seq<Heading>>, c: seq<seq<Heading>>, base: int)
    requires ShapedFrom(a, base) && ShapedFrom(c, base + |a|)
    ensures ShapedFrom(a + c, base)
  {
    forall i | 0 <= i < |a + c|
      ensures |(a + c)[i]| > 0 && Forest((a + c)[i], base + i)
    {
      if i < |a| { assert (a + c)[i] == a[i]; } else { assert (a + c)[i] == c[i - |a|]; }
    }
  }

  lemma ShapedPrefix(q: seq<seq<Heading>>, base: int, k: nat)
    requires ShapedFrom(q, base) && k <= |q|
    ensures ShapedFrom(q[..k], base)
  {
    forall i | 0 <= i < k ensures |q[..k][i]| > 0 && Forest(q[..k][i], base + i) {
      assert q[..k][i] == q[i];
    }
  }

  lemma ForestSnoc(l: seq<Heading>, h: Heading, level: int)
    requires Forest(l, level) && h.level == level && h.children == []
    ensures Forest(l + [h], level)
  {
    forall i | 0 <= i < |l + [h]| ensures (l + [h])[i].level == level && WellLeveled((l + [h])[i]) {
      if i < |l| { assert (l + [h])[i] == l[i]; }
    }
  }

  /** A heading deeper than the last (or the first heading): placeholder lists for the skipped levels, then a new list. */
  lemma AddDeeperCorrect(q: seq<seq<Heading>>, h: Heading)
    requires Shaped(q) && h.level > |q| && h.children == []
    ensures var r := q + Gap(|q| + 1, h.level) + [[h]];
      Shaped(r) && QPre(r) == QPre(q) + GapEntries(|q| + 1, h.level) + [EntryOf(h)]
  {
    var g := Gap(|q| + 1, h.level);
    GapShaped(|q| + 1, h.level);
    ShapedConcat(q, g, 1);
    assert ShapedFrom([[h]], 1 + |q + g|);
    ShapedConcat(q + g, [[h]], 1);
    QPreAppend(q, g);
    QPreAppend(q + g, [[h]]);
    GapPreorder(|q| + 1, h.level);
    QPreSingle(h);
  }

  /** A heading at the last level joins the top list. */
  lemma AddSiblingCorrect(q: seq<seq<Heading>>, h: Heading)
    requires Shaped(q) && |q| > 0 && h.level == |q| && h.children == []
    ensures var r := q[..|q| - 1] + [q[|q| - 1] + [h]];
      Shaped(r) && QPre(r) == QPre(q) + [EntryOf(h)]
  {
    var init, top := q[..|q| - 1], q[|q| - 1];
    ShapedPrefix(q, 1, |q| - 1);
    assert Forest(top, |q|);
    ForestSnoc(top, h, |q|);
    assert ShapedFrom([top + [h]], 1 + |init|);
    ShapedConcat(init, [top + [h]], 1);
    assert q == init + [top];
    QPreAppend(init, [top]);
    QPreAppend(init, [top + [h]]);
    assert QPre([top]) == Pre(top) + QPre([]);
    assert QPre([top + [h]]) == Pre(top + [h]) + QPre([]);
    PreAppend(top, [h]);
    PreSingle(h);
  }

  /** A shallower heading: the deeper lists close into their parents, and it joins the list of its level. */
  lemma AddShallowerShape(q: seq<seq<Heading>>, h: Heading)
    requires Shaped(q) && 1 <= h.level < |q| && h.children == []
    ensures ShapedFrom(q[h.level - 1..], h.level)
    ensures Shaped(q[..h.level - 1] + [Nest(q[h.level - 1..]) + [h]])
  {
    var k := h.level - 1;
    ShapedSuffix(q, 1, k);
    ShapedPrefix(q, 1, k);
    NestForest(q[k..], h.level);
    var n := Nest(q[k..]);
    ForestSnoc(n, h, h.level);
    assert ShapedFrom([n + [h]], 1 + k);
    ShapedConcat(q[..k], [n + [h]], 1);
  }

  lemma QPreSplitNest(q: seq<seq<Heading>>, k: nat)
    requires Open(q) && k < |q|
    ensures Open(q[k..])
    ensures QPre(q) == QPre(q[..k]) + Pre(Nest(q[k..]))
  {
    OpenSuffix(q, k);
    NestPreorder(q[k..]);
    assert q == q[..k] + q[k..];
    QPreAppend(q[..k], q[k..]);
  }

  lemma QPreSnocList(a: seq<seq<Heading>>, n: seq<Heading>, h: Heading)
    requires h.children == []
    ensures QPre(a + [n + [h]]) == QPre(a) + Pre(n) + [EntryOf(h)]
  {
    QPreAppend(a, [n + [h]]);
    PreAppend(n, [h]);
    PreSingle(h);
    assert QPre([n + [h]]) == Pre(n + [h]) + QPre([]);
  }

  lemma AddShallowerPreorder(q: seq<seq<Heading>>, h: Heading)
    requires Open(q) && 1 <= h.level < |q| && h.children == []
    ensures Open(q[h.level - 1..])
    ensures QPre(q[..h.level - 1] + [Nest(q[h.level - 1..]) + [h]]) == QPre(q) + [EntryOf(h)]
  {
    QPreSplitNest(q, h.level - 1);
    QPreSnocList(q[..h.level - 1], Nest(q[h.level - 1..]), h);
  }

  /** Placeholders carry no name, so the named entries of Expected are exactly the named added headings. */
  lemma {:induction false} NamedAppend(a: seq<Entry>, b: seq<Entry>)
    ensures Named(a + b) == Named(a) + Named(b)
  {
    if a == [] {
      assert a + b == b;
    } else {
      assert (a + b)[0] == a[0] && (a + b)[1..] == a[1..] + b;
      NamedAppend(a[1..], b);
    }
  }

  lemma {:induction false} GapUnnamed(lo: int, hi: int)
    ensures Named(GapEntries(lo, hi)) == []
    decreases hi - lo
  {
    if lo < hi { GapUnnamed(lo + 1, hi); }
  }

  lemma {:induction false} ExpectedNamed(added: seq<Entry>)
    ensures Named(Expected(added)) == Named(added)
  {
    if added != [] {
      var prev, e := added[..|added| - 1], added[|added| - 1];
      ExpectedNamed(prev);
      GapUnnamed(LastAdded(prev) + 1, e.level);
      NamedAppend(Expected(prev), GapEntries(LastAdded(prev) + 1, e.level));
      NamedAppend(Expected(prev) + GapEntries(LastAdded(prev) + 1, e.level), [e]);
      assert added == prev + [e];
      NamedAppend(prev, [e]);
    }
  }

  // The lone lists before FirstReal contribute one unnamed entry each.
  lemma {:induction false} LonePrefix(q: seq<seq<Heading>>, k: nat)
    requires Open(q) && k <= FirstReal(q, 0) && k <= |q|
    ensures |QPre(q[..k])| == k && Named(QPre(q[..k])) == []
  {
    if k > 0 {
      LonePrefix(q, k - 1);
      assert q[..k] == q[..k - 1] + [q[k - 1]];
      QPreAppend(q[..k - 1], [q[k - 1]]);
      assert |q[k - 1]| == 1 && q[k - 1][0].name == "";
      assert q[k - 1] == [q[k - 1][0]];
      PreSingle(q[k - 1][0]);
      assert QPre([q[k - 1]]) == Pre(q[k - 1]) + QPre([]);
      NamedAppend(QPre(q[..k - 1]), QPre([q[k - 1]]));
    }
  }

  /** The finished tree walks exactly the queue's preorder minus the trimmed placeholder levels. */
  lemma HeadingsPreorder(q: seq<seq<Heading>>)
    requires Open(q)
    ensures |QPre(q)| >= FirstReal(q, 0) && Pre(Headings(q)) == QPre(q)[FirstReal(q, 0)..]
    ensures Named(Pre(Headings(q))) == Named(QPre(q))
  {
    var k := FirstReal(q, 0);
    LonePrefix(q, k);
    var a, b := QPre(q[..k]), QPre(q[k..]);
    QPreSplit(q, k);
    HeadingsWalkTail(q);
    assert (a + b)[k..] == b;
    NamedAppend(a, b);
  }

  lemma QPreSplit(q: seq<seq<Heading>>, k: nat)
    requires k <= |q|
    ensures QPre(q) == QPre(q[..k]) + QPre(q[k..])
  {
    assert q == q[..k] + q[k..];
    QPreAppend(q[..k], q[k..]);
  }

  /** The tree getHeadings returns walks the queue from the first surviving list on. */
  lemma HeadingsWalkTail(q: seq<seq<Heading>>)
    requires Open(q)
    ensures Pre(Headings(q)) == QPre(q[FirstReal(q, 0)..])
  {
    var k := FirstReal(q, 0);
    if k < |q| {
      OpenSuffix(q, k);
      NestPreorder(q[k..]);
    } else {
      assert q[k..] == [];
    }
  }

  /** The top-level headings share one level, and every child is one level below its parent. */
  lemma HeadingsLeveled(q: seq<seq<Heading>>)
    requires Shaped(q)
    ensures Forest(Headings(q), FirstReal(q, 0) + 1)
  {
    var k := FirstReal(q, 0);
    if k < |q| {
      ShapedSuffix(q, 1, k);
      NestForest(q[k..], k + 1);
    }
  }

  /** Where the source's getHeadings is defined, the corrected one agrees with it. */
  lemma HeadingsAgree(q: seq<seq<Heading>>)
    requires NonEmptyLists(q) && FirstReal(q, 0) < |q|
    ensures Headings(q) == HeadingsAsWritten(q)
  {
  }

  /** A fresh tracker (a document with no heading) makes the source's getHeadings index an empty slice. */
  lemma NoHeadingsIndexesEmptyQueue()
    ensures var q: seq<seq<Heading>> := []; !(FirstReal(q, 0) < |q|)
  {
  }

  /** So does a document whose only heading is an unnamed level-2 heading. */
  lemma UnnamedOnlyIndexesEmptyQueue()
    ensures var q := QueueAfterAdd([], 2, "", ""); !(FirstReal(q, 0) < |q|)
  {
    var q := QueueAfterAdd([], 2, "", "");
    assert q == [[Placeholder(1)], [Heading(2, "", "", [])]];
  }

  /** What HeadingTracker.Valid asks of a queue and the headings added to it is kept by every add. */
  lemma AddKeepsValid(q: seq<seq<Heading>>, added: seq<Entry>, level: int, id: string, name: string)
    requires Shaped(q) && QPre(q) == Expected(added) && |q| == LastAdded(added) && level >= 1
    ensures var r, e := QueueAfterAdd(q, level, id, name), Entry(level, id, name);
      QPre(r) == Expected(added + [e]) && |r| == LastAdded(added + [e])
  {
    var e := Entry(level, id, name);
    ShapedLastLevel(q);
    ExpectedSnoc(added, e);
  }

  lemma ExpectedSnoc(added: seq<Entry>, e: Entry)
    ensures Expected(added + [e]) == Expected(added) + GapEntries(LastAdded(added) + 1, e.level) + [e]
    ensures LastAdded(added + [e]) == e.level
  {
    assert (added + [e])[..|added|] == added;
  }

  /** HeadingTracker's invariant: the queue is shaped and walks the added headings with their placeholders. */
  predicate Tracks(q: seq<seq<Heading>>, added: seq<Entry>) {
    && Shaped(q)
    && QPre(q) == Expected(added)
    && |q| == LastAdded(added)
    && (forall i :: 0 <= i < |added| ==> added[i].level >= 1)
  }

  lemma AddKeepsTracks(q: seq<seq<Heading>>, added: seq<Entry>, level: int, id: string, name: string)
    requires Tracks(q, added) && level >= 1
    ensures Tracks(QueueAfterAdd(q, level, id, name), added + [Entry(level, id, name)])
  {
    var e := Entry(level, id, name);
    AddKeepsValid(q, added, level, id, name);
    assert forall i :: 0 <= i < |added + [e]| ==> (added + [e])[i].level >= 1;
  }

  /** The placeholder loops of add: one single-placeholder list per level from `lo` to `hi - 1`. */
  method AppendPlaceholders(q: seq<seq<Heading>>, lo: int, hi: int) returns (r: seq<seq<Heading>>)
    requires lo <= hi
    ensures r == q + Gap(lo, hi)
  {
    r := q;
    var i := lo;
    while i < hi
      invariant lo <= i <= hi
      invariant r == q + Gap(lo, i)
    {
      GapSnoc(lo, i);
      r := r + [[Heading(i, "", "", [])]];
      i := i + 1;
    }
  }

  /** The closing loop of add: pop lists down to `level`, each becoming the children of its parent's last heading. */
  method CloseLists(q: seq<seq<Heading>>, level: int) returns (r: seq<seq<Heading>>)
    requires Open(q) && 1 <= level < |q|
    ensures Open(q[level - 1..])
    ensures r == q[..level - 1] + [Nest(q[level - 1..])]
  {
    r := q;
    var i := |q|;
    NestLast(q);
    while i > level
      invariant level <= i <= |q|
      invariant Open(q[i - 1..])
      invariant r == q[..i - 1] + [Nest(q[i - 1..])]
    {
      var list := r[|r| - 1];
      r := r[..|r| - 1];
      var parentList := r[|r| - 1];
      r := r[..|r| - 1] + [AttachLast(parentList, list)];
      CloseStep(q, i);
      i := i - 1;
    }
    OpenSuffix(q, level - 1);
  }

  /** Before the closing loop: the top list is the whole queue from its last list on. */
  lemma NestLast(q: seq<seq<Heading>>)
    requires Open(q) && |q| > 0
    ensures Open(q[|q| - 1..]) && q == q[..|q| - 1] + [Nest(q[|q| - 1..])]
  {
    OpenSuffix(q, |q| - 1);
    assert q[|q| - 1..] == [q[|q| - 1]];
    assert q == q[..|q| - 1] + [q[|q| - 1]];
  }

  /** One turn of the closing loop: the top list becomes the children of the last heading below it. */
  lemma CloseStep(q: seq<seq<Heading>>, i: int)
    requires Open(q) && 2 <= i <= |q| && Open(q[i - 1..])
    ensures Open(q[i - 2..])
    ensures var r := q[..i - 1] + [Nest(q[i - 1..])];
      r[..|r| - 1][..|r| - 2] + [AttachLast(r[..|r| - 1][|r| - 2], r[|r| - 1])] == q[..i - 2] + [Nest(q[i - 2..])]
  {
    var r := q[..i - 1] + [Nest(q[i - 1..])];
    OpenSuffix(q, i - 2);
    assert q[i - 2..][1..] == q[i - 1..];
    assert r[..|r| - 1] == q[..i - 1];
    assert q[..i - 1][..i - 2] == q[..i - 2];
  }

  /** The body of headingTracker.add on the queue it updates. */
  method Enqueue(q0: seq<seq<Heading>>, level: int, id: string, name: string) returns (q: seq<seq<Heading>>)
    requires Shaped(q0) && level >= 1
    ensures q == QueueAfterAdd(q0, level, id, name)
  {
    ShapedLastLevel(q0);
    var h := Heading(level, id, name, []);
    q := q0;
    if |q| == 0 {
      q := AppendPlaceholders(q, 1, level);
      q := q + [[h]];
      assert q == AddDeeper(q0, h);
    } else {
      var currList := q[|q| - 1];
      var lastHeading := currList[|currList| - 1];
      if level == lastHeading.level {
        q := q[..|q| - 1] + [currList + [h]];
        assert q == AddSibling(q0, h);
      } else if level > lastHeading.level {
        q := AppendPlaceholders(q, lastHeading.level + 1, level);
        q := q + [[h]];
        assert q == AddDeeper(q0, h);
      } else {
        q := CloseLists(q, level);
        var currList := q[|q| - 1];
        q := q[..|q| - 1] + [currList + [h]];
        assert q == AddShallower(q0, h);
      }
    }
  }

  // ---------------------------------------------------------------- the tracker

  class HeadingTracker {
    var queue: seq<seq<Heading>>
    /** The headings added so far, in order. */
    ghost var added: seq<Entry>

    ghost predicate Valid()
      reads this
    {
      Tracks(queue, added)
    }

    /** newHeadingTracker. */
    constructor ()
      ensures Valid() && queue == [] && added == []
    {
      queue := [];
      added := [];
    }

    /** headingTracker.add(level, id, name). */
    method Add(level: int, id: string, name: string)
      requires Valid() && level >= 1
      modifies this
      ensures Valid()
      ensures queue == QueueAfterAdd(old(queue), level, id, name)
      ensures added == old(added) + [Entry(level, id, name)]
    {
      ghost var q0, a0 := queue, added;
      var q := Enqueue(queue, level, id, name);
      ghost var e := Entry(level, id, name);
      AddKeepsTracks(q0, a0, level, id, name);
      queue := q;
      added := a0 + [e];
    }

    /**
     * headingTracker.getHeadings: drop the leading lone unnamed lists, then
     * link each list as the children of the last heading of the list before
     * it, and return the first. When no list survives the trim the source
     * indexes an empty slice; this returns [] there.
     */
    method GetHeadings() returns (hs: seq<Heading>)
      requires Valid()
      modifies this
      ensures hs == Headings(old(queue))
      ensures Named(Pre(hs)) == Named(added)
      ensures Forest(hs, FirstReal(old(queue), 0) + 1)
      ensures queue == Collapsed(old(queue)[FirstReal(old(queue), 0)..])
    {
      ghost var q0, a0 := queue, added;
      var q: seq<seq<Heading>> := queue;
      var idx := 0;
      while idx < |q|
        invariant 0 <= idx <= FirstReal(q0, 0) && q == q0
      {
        if |q[idx]| > 1 || q[idx][0].name != "" {
          break;
        }
        idx := idx + 1;
      }
      assert idx == FirstReal(q0, 0);
      if idx > 0 {
        q := q[idx..];
      }
      assert q == q0[idx..];
      HeadingsPreorder(q0);
      HeadingsLeveled(q0);
      ExpectedNamed(a0);
      if |q| == 0 {
        queue := q;
        return [];
      }
      q := Collapse(q);
      queue := q;
      hs := q[0];
      assert hs == Nest(q0[idx..]) == HeadingsAsWritten(q0);
    }
  }

  /**
   * The collapse loop of getHeadings: from the last list up, each list becomes
   * the children of the last heading of the list before it. Afterwards list k
   * is the collapse of the lists from k on.
   */
  method Collapse(t: seq<seq<Heading>>) returns (r: seq<seq<Heading>>)
    requires |t| > 0 && NonEmptyLists(t)
    ensures r == Collapsed(t)
  {
    r := t;
    var i := |r| - 1;
    assert t[i..] == [t[i]];
    while i > 0
      invariant 0 <= i < |r| == |t|
      invariant forall k :: 0 <= k < i ==> r[k] == t[k]
      invariant forall k :: i <= k < |t| ==> r[k] == Nest(t[k..])
    {
      var parentList := r[i - 1];
      assert t[i - 1..][1..] == t[i..];
      r := r[i - 1 := AttachLast(parentList, r[i])];
      i := i - 1;
    }
  }

  /** The queue after getHeadings' collapse loop: list k holds the collapse of the lists from k on. */
  function Collapsed(t: seq<seq<Heading>>): (r: seq<seq<Heading>>)
    requires NonEmptyLists(t)
    ensures |r| == |t|
    ensures forall k :: 0 <= k < |t| ==> r[k] == Nest(t[k..])
  {
    if t == [] then []
    else
      assert forall k :: 1 <= k <= |t| ==> t[1..][k - 1..] == t[k..];
      [Nest(t)] + Collapsed(t[1..])
  }

  lemma {:induction false} GapSnoc(lo: int, hi: int)
    requires lo <= hi
    ensures Gap(lo, hi + 1) == Gap(lo, hi) + [[Placeholder(hi)]]
    decreases hi - lo
  {
    assert Gap(lo, hi + 1) == Gap(lo, hi) + [[Placeholder(hi)]];
  }
}

/** The table tests of gen/markdown/headingtracker_test.go, replayed on the model. */
module HeadingScenarios {
  import opened MarkdownHeadings

  function Leaf(level: int, name: string): Heading {
    Heading(level, "", name, [])
  }

  /** Flat adds give a flat list of childless headings. */
  method FlatList() returns (hs: seq<Heading>)
    ensures hs == [Leaf(1, "heading1"), Leaf(1, "heading2"), Leaf(1, "heading3")]
  {
    var ht := new HeadingTracker();
    ht.Add(1, "", "heading1");
    FirstAdd(1, "", "heading1");
    ghost var q: seq<seq<Heading>> := [[Leaf(1, "heading1")]];
    assert ht.queue == q;
    SameLevelAdd(q, 1, "", "heading2");
    ht.Add(1, "", "heading2");
    assert q[..0] == [];
    assert q[0] + [Leaf(1, "heading2")] == [Leaf(1, "heading1"), Leaf(1, "heading2")];
    q := [[Leaf(1, "heading1"), Leaf(1, "heading2")]];
    assert ht.queue == q;
    SameLevelAdd(q, 1, "", "heading3");
    ht.Add(1, "", "heading3");
    assert q[..0] == [];
    assert q[0] + [Leaf(1, "heading3")] == [Leaf(1, "heading1"), Leaf(1, "heading2"), Leaf(1, "heading3")];
    q := [[Leaf(1, "heading1"), Leaf(1, "heading2"), Leaf(1, "heading3")]];
    assert ht.queue == q;
    assert FirstReal(q, 0) == 0;
    hs := ht.GetHeadings();
  }

  const Skipped1: seq<seq<Heading>> := [[Placeholder(1)], [Placeholder(2)], [Leaf(3, "heading2.1.1")]]
  const Skipped2: seq<seq<Heading>> := [[Placeholder(1)], [Placeholder(2)], [Leaf(3, "heading2.1.1"), Leaf(3, "heading2.1.2")]]
  const Skipped3: seq<seq<Heading>> := Skipped2 + [[Leaf(4, "heading2.1.2.1")]]

  lemma SkippedStep2()
    requires Shaped(Skipped1)
    ensures QueueAfterAdd(Skipped1, 3, "", "heading2.1.2") == Skipped2
  {
    var q := Skipped1;
    SameLevelAdd(q, 3, "", "heading2.1.2");
    assert q[..2] == [[Placeholder(1)], [Placeholder(2)]];
    assert q[2] + [Leaf(3, "heading2.1.2")] == [Leaf(3, "heading2.1.1"), Leaf(3, "heading2.1.2")];
  }

  lemma SkippedFinal()
    ensures Headings(Skipped3) == [Leaf(3, "heading2.1.1"), Heading(3, "", "heading2.1.2", [Leaf(4, "heading2.1.2.1")])]
  {
    var q := Skipped3;
    assert |q| == 4 && |q[2]| == 2;
    assert FirstReal(q, 2) == 2;
    assert FirstReal(q, 0) == 2;
    assert q[2..] == [[Leaf(3, "heading2.1.1"), Leaf(3, "heading2.1.2")], [Leaf(4, "heading2.1.2.1")]];
    assert q[2..][1..] == [[Leaf(4, "heading2.1.2.1")]];
    assert Nest(q[2..][1..]) == [Leaf(4, "heading2.1.2.1")];
    assert Headings(q) == AttachLast([Leaf(3, "heading2.1.1"), Leaf(3, "heading2.1.2")], [Leaf(4, "heading2.1.2.1")]);
  }

  /** Starting at level 3 trims the placeholder levels 1 and 2. */
  method SkippedHigherHeadings() returns (hs: seq<Heading>)
    ensures hs == [Leaf(3, "heading2.1.1"), Heading(3, "", "heading2.1.2", [Leaf(4, "heading2.1.2.1")])]
  {
    var ht := new HeadingTracker();
    FirstAdd(3, "", "heading2.1.1");
    ht.Add(3, "", "heading2.1.1");
    assert ht.queue == Skipped1;
    SkippedStep2();
    ht.Add(3, "", "heading2.1.2");
    DeeperAdd(Skipped2, 4, "", "heading2.1.2.1");
    ht.Add(4, "", "heading2.1.2.1");
    assert ht.queue == Skipped3;
    SkippedFinal();
    hs := ht.GetHeadings();
  }

  const H2 := Heading(2, "", "", [Leaf(3, "heading3.1.1"), Leaf(3, "heading3.1.2")])
  const Missing1: seq<seq<Heading>> := [[Placeholder(1)], [Placeholder(2)], [Leaf(3, "heading3.1.1")]]
  const Missing2: seq<seq<Heading>> := [[Placeholder(1)], [Placeholder(2)], [Leaf(3, "heading3.1.1"), Leaf(3, "heading3.1.2")]]
  const Missing3: seq<seq<Heading>> := [[Placeholder(1)], [H2, Leaf(2, "heading3.2")]]
  const Missing4: seq<seq<Heading>> := [[Placeholder(1)], [H2, Leaf(2, "heading3.2"), Leaf(2, "heading3.3")]]
  const MissingTop := [Heading(1, "", "", [H2, Leaf(2, "heading3.2"), Leaf(2, "heading3.3")]), Leaf(1, "heading4")]

  lemma MissingStep1()
    ensures QueueAfterAdd([], 3, "", "heading3.1.1") == Missing1
  {
    FirstAdd(3, "", "heading3.1.1");
  }

  lemma MissingStep2()
    requires Shaped(Missing1)
    ensures QueueAfterAdd(Missing1, 3, "", "heading3.1.2") == Missing2
  {
    var q := Missing1;
    SameLevelAdd(q, 3, "", "heading3.1.2");
    assert q[..2] == [[Placeholder(1)], [Placeholder(2)]];
    assert q[2] + [Leaf(3, "heading3.1.2")] == [Leaf(3, "heading3.1.1"), Leaf(3, "heading3.1.2")];
  }

  lemma MissingStep3()
    requires Shaped(Missing2)
    ensures QueueAfterAdd(Missing2, 2, "", "heading3.2") == Missing3
  {
    var q2 := Missing2;
    ShallowerAdd(q2, 2, "", "heading3.2");
    assert q2[2..] == [q2[2]];
    assert AttachLast(q2[1], Nest(q2[2..])) + [Leaf(2, "heading3.2")] == [H2, Leaf(2, "heading3.2")];
    var r3 := QueueAfterAdd(q2, 2, "", "heading3.2");
    assert r3 == r3[..1] + [r3[1]];
  }

  lemma MissingStep4()
    requires Shaped(Missing3)
    ensures QueueAfterAdd(Missing3, 2, "", "heading3.3") == Missing4
  {
    var q3 := Missing3;
    SameLevelAdd(q3, 2, "", "heading3.3");
    assert q3[..1] == [[Placeholder(1)]];
    assert q3[1] + [Leaf(2, "heading3.3")] == [H2, Leaf(2, "heading3.2"), Leaf(2, "heading3.3")];
  }

  lemma MissingStep5()
    requires Shaped(Missing4)
    ensures QueueAfterAdd(Missing4, 1, "", "heading4") == [MissingTop]
  {
    var q4 := Missing4;
    ShallowerAdd(q4, 1, "", "heading4");
    assert q4[1..] == [q4[1]];
    assert AttachLast(q4[0], Nest(q4[1..])) + [Leaf(1, "heading4")] == MissingTop;
    var r5 := QueueAfterAdd(q4, 1, "", "heading4");
    assert r5 == [r5[0]];
  }

  lemma MissingFinal()
    ensures Headings([MissingTop]) == MissingTop
  {
    var r5 := [MissingTop];
    assert FirstReal(r5, 0) == 0;
    assert r5[0..] == r5;
  }

  /** Going back to level 1 keeps the unnamed level-1 placeholder as a top-level heading. */
  lemma MissingHigherHeadings()
    ensures
      var q1 := QueueAfterAdd([], 3, "", "heading3.1.1");
      var q2 := QueueAfterAdd(q1, 3, "", "heading3.1.2");
      var q3 := QueueAfterAdd(q2, 2, "", "heading3.2");
      var q4 := QueueAfterAdd(q3, 2, "", "heading3.3");
      var q5 := QueueAfterAdd(q4, 1, "", "heading4");
      Headings(q5) == [
        Heading(1, "", "", [
          Heading(2, "", "", [Leaf(3, "heading3.1.1"), Leaf(3, "heading3.1.2")]),
          Leaf(2, "heading3.2"),
          Leaf(2, "heading3.3")]),
        Leaf(1, "heading4")]
  {
    MissingStep1();
    MissingStep2();
    MissingStep3();
    MissingStep4();
    MissingStep5();
    MissingFinal();
  }
}
