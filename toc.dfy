/**
 * gen/toc.go: the table of contents, a nested <ul> per heading list, with
 * lists below `maxDepth` levels left out.
 */
module Toc {
  import opened Strs
  import MH = MarkdownHeadings

  /** fmt's %d of a non-negative int. */
  function Decimal(n: nat): (r: string)
    ensures |r| > 0 && forall i :: 0 <= i < |r| ==> '0' <= r[i] <= '9'
  {
    var d := [(n % 10) as char + '0'];
    if n < 10 then d else Decimal(n / 10) + d
  }

  const TocCss := "\n\t.toc {\n\tposition: -webkit-sticky; /* Safari */\n\tposition: sticky;\n\tfloat: right;\n\ttop: 5em;\n\tmargin-right: 2em;\n\t}\n\t"

  function ListOpen(depth: nat): string {
    "<ul class=\"toc_ul_" + Decimal(depth) + "\">"
  }

  const ListClose := "</ul>"

  function Item(h: MH.Heading, depth: nat): string {
    "<li class=\"toc_li_" + Decimal(depth) + "\"><a href=\"#" + h.id + "\">" + h.name + "</a></li>"
  }

  /** Whether a heading's children get their own nested list. */
  predicate Nests(h: MH.Heading, depth: nat, maxDepth: int) {
    |h.children| > 0 && depth + 1 < maxDepth
  }

  /** What renderHeadingList returns. */
  function ListHtml(hs: seq<MH.Heading>, depth: nat, maxDepth: int): string
    decreases hs, 1
  {
    ListOpen(depth) + ItemsHtml(hs, depth, maxDepth) + ListClose
  }

  /** The items of one list: each heading's entry in order. */
  function ItemsHtml(hs: seq<MH.Heading>, depth: nat, maxDepth: int): string
    decreases hs, 0
  {
    if hs == [] then ""
    else Entry(hs[0], depth, maxDepth) + ItemsHtml(hs[1..], depth, maxDepth)
  }

  /** One heading's <li>, followed by its nested list if it has one. */
  function Entry(h: MH.Heading, depth: nat, maxDepth: int): string
    decreases h, 2
  {
    Item(h, depth) + Nested(h, depth, maxDepth)
  }

  function Nested(h: MH.Heading, depth: nat, maxDepth: int): string
    decreases h, 1
  {
    if Nests(h, depth, maxDepth) then ListHtml(h.children, depth + 1, maxDepth) else ""
  }

  lemma ItemsSnoc(hs: seq<MH.Heading>, h: MH.Heading, depth: nat, maxDepth: int)
    ensures ItemsHtml(hs + [h], depth, maxDepth) == ItemsHtml(hs, depth, maxDepth) + Entry(h, depth, maxDepth)
  {
    ItemsAppend(hs, [h], depth, maxDepth);
    assert ItemsHtml([h], depth, maxDepth) == Entry(h, depth, maxDepth) + "";
    assert Entry(h, depth, maxDepth) + "" == Entry(h, depth, maxDepth);
  }

  /** renderHeadingList: the +=-loop over the list, recursing into nested lists. */
  method RenderHeadingList(hs: seq<MH.Heading>, depth: nat, maxDepth: int) returns (html: string)
    ensures html == ListHtml(hs, depth, maxDepth)
    decreases hs
  {
    html := ListOpen(depth);
    var i := 0;
    while i < |hs|
      invariant 0 <= i <= |hs|
      invariant html == ListOpen(depth) + ItemsHtml(hs[..i], depth, maxDepth)
    {
      var h := hs[i];
      var nested := "";
      if |h.children| > 0 && depth + 1 < maxDepth {
        nested := RenderHeadingList(h.children, depth + 1, maxDepth);
      }
      html := Extend(html, hs, i, depth, maxDepth, nested);
      i := i + 1;
    }
    assert hs[..i] == hs;
    html := html + ListClose;
  }

  /** One loop step of RenderHeadingList: the item and its nested list, if any. */
  function Extend(html: string, hs: seq<MH.Heading>, i: nat, depth: nat, maxDepth: int, nested: string): (r: string)
    requires i < |hs| && html == ListOpen(depth) + ItemsHtml(hs[..i], depth, maxDepth)
    requires nested == Nested(hs[i], depth, maxDepth)
    ensures r == ListOpen(depth) + ItemsHtml(hs[..i + 1], depth, maxDepth)
  {
    var items, item := ItemsHtml(hs[..i], depth, maxDepth), Item(hs[i], depth);
    assert ItemsHtml(hs[..i + 1], depth, maxDepth) == items + (item + nested) by {
      ItemsSnoc(hs[..i], hs[i], depth, maxDepth);
      assert hs[..i + 1] == hs[..i] + [hs[i]];
    }
    var open := ListOpen(depth);
    assert open + items + item + nested == open + (items + (item + nested));
    html + item + nested
  }

  /** renderToC: nothing for no headings, otherwise the list in a toc div with the fixed CSS. */
  function RenderToC(hs: seq<MH.Heading>, maxDepth: int): (r: (string, string))
    ensures hs == [] ==> r == ("", "")
    ensures hs != [] ==> r == ("<div class=\"toc\">" + ListHtml(hs, 0, maxDepth) + "</div>", TocCss)
  {
    if |hs| == 0 then ("", "")
    else ("<div class=\"toc\">" + ListHtml(hs, 0, maxDepth) + "</div>", TocCss)
  }

  /** The tree cut to `levels` levels of children below `hs`. */
  function Prune(hs: seq<MH.Heading>, levels: int): (r: seq<MH.Heading>)
    ensures |r| == |hs|
    ensures forall i :: 0 <= i < |hs| ==> r[i].id == hs[i].id && r[i].name == hs[i].name
    ensures levels <= 0 ==> forall i :: 0 <= i < |hs| ==> r[i].children == []
    decreases hs
  {
    if hs == [] then []
    else
      var h := hs[0];
      [h.(children := if levels <= 0 then [] else Prune(h.children, levels - 1))] + Prune(hs[1..], levels)
  }

  /**
   * The depth cut-off: a list rendered at `depth` shows nothing of the
   * tree below maxDepth-depth-1 levels of nesting, so from depth 0 no list
   * deeper than maxDepth-1 appears.
   */
  lemma {:induction false} ListPruned(hs: seq<MH.Heading>, depth: nat, maxDepth: int)
    ensures ListHtml(hs, depth, maxDepth) == ListHtml(Prune(hs, maxDepth - depth - 1), depth, maxDepth)
    decreases hs, 1
  {
    ItemsPruned(hs, depth, maxDepth);
  }

  lemma {:induction false} ItemsPruned(hs: seq<MH.Heading>, depth: nat, maxDepth: int)
    ensures ItemsHtml(hs, depth, maxDepth) == ItemsHtml(Prune(hs, maxDepth - depth - 1), depth, maxDepth)
    decreases hs, 0
  {
    if hs != [] {
      var k := maxDepth - depth - 1;
      var p := Prune(hs, k);
      var h := hs[0];
      assert p[0] == h.(children := if k <= 0 then [] else Prune(h.children, k - 1));
      assert p[1..] == Prune(hs[1..], k);
      EntryPruned(h, p[0], depth, maxDepth);
      ItemsPruned(hs[1..], depth, maxDepth);
    }
  }

  lemma {:induction false} EntryPruned(h: MH.Heading, h': MH.Heading, depth: nat, maxDepth: int)
    requires h' == h.(children := if maxDepth - depth - 1 <= 0 then [] else Prune(h.children, maxDepth - depth - 2))
    ensures Entry(h, depth, maxDepth) == Entry(h', depth, maxDepth)
    decreases h, 2
  {
    assert Item(h', depth) == Item(h, depth);
    if Nests(h, depth, maxDepth) {
      ListPruned(h.children, depth + 1, maxDepth);
      assert Nests(h', depth, maxDepth);
    } else {
      assert !Nests(h', depth, maxDepth);
    }
  }

  /** The items appear in list order: the list of a + b is a's items followed by b's. */
  lemma {:induction false} ItemsAppend(a: seq<MH.Heading>, b: seq<MH.Heading>, depth: nat, maxDepth: int)
    ensures ItemsHtml(a + b, depth, maxDepth) == ItemsHtml(a, depth, maxDepth) + ItemsHtml(b, depth, maxDepth)
    decreases |a|
  {
    if a == [] {
      assert a + b == b;
    } else {
      assert (a + b)[1..] == a[1..] + b;
      ItemsAppend(a[1..], b, depth, maxDepth);
    }
  }
}
