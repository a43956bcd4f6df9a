/**
 * gen/color/palette.go's Palette and the two HTML emitters of
 * gen/markdown/dom.go, which write the output of a closed <mark> or
 * <ins type="book_bib"> frame. Each is one formatted write of its
 * arguments; here each returns the bytes it writes.
 */
module Dom {
  import opened Strs

  datatype Palette = Palette(
    red: string, green: string, blue: string, yellow: string, orange: string,
    pink: string, lightGray: string, darkGray: string,
    highlighterRed: string, highlighterGreen: string, highlighterBlue: string,
    highlighterYellow: string, highlighterOrange: string)

  const HighlightClose: string := "</span>"

  function HighlightOpen(color: string): string {
    "<span style=\"background-color:" + color + ";\">"
  }

  /** highlight: the content wrapped, unescaped, in a span whose background is `color`. */
  function Highlight(content: string, color: string): (r: string)
    ensures HasPrefix(r, HighlightOpen(color)) && HasSuffix(r, HighlightClose)
    ensures |r| == |HighlightOpen(color)| + |content| + |HighlightClose|
  {
    HighlightOpen(color) + content + HighlightClose
  }

  /** The content is inserted verbatim: it is exactly what lies between the opening and closing markup. */
  lemma HighlightVerbatim(content: string, color: string)
    ensures var r := Highlight(content, color);
      r[|HighlightOpen(color)|..|r| - |HighlightClose|] == content
  {
    var r := Highlight(content, color);
    assert r == HighlightOpen(color) + content + HighlightClose;
    assert r[|HighlightOpen(color)|..|r| - |HighlightClose|] == content;
  }

  /** Different contents highlighted in the same colour never give the same output. */
  lemma HighlightInjective(c1: string, c2: string, color: string)
    requires Highlight(c1, color) == Highlight(c2, color)
    ensures c1 == c2
  {
    HighlightVerbatim(c1, color);
    HighlightVerbatim(c2, color);
  }

  // The fixed text between the arguments of bookBibliography's template.
  const Bib0: string := "\n<div style=\"width:100%;margin-bottom:100px;border-bottom: 2px solid "
  const Bib1: string := ";display:grid;grid-template-columns: 1fr 2fr;\">\n\t<span><a href=\""
  const Bib2: string := "\"><img src=\""
  const Bib3: string := "\" style=\"width:100%\"></a></span>\n\t<span style=\"padding-left:40px;\">\n\t\t<div style=\"font-size:2em;font-weight: bold;\">"
  const Bib4: string := "</div>\n\t\t<div style=\"font-size:1.2em;margin-top:5px;\">作者: "
  const Bib5: string := "</div>\n\t</span>\n</div>"

  /** The pieces of a format string and its arguments, written out in order. */
  function Concat(ps: seq<string>): (r: string)
    ensures ps == [] ==> r == []
  {
    if ps == [] then [] else ps[0] + Concat(ps[1..])
  }

  /** Where piece `k` starts in Concat(ps). */
  function Offset(ps: seq<string>, k: nat): nat
    requires k <= |ps|
  {
    |Concat(ps[..k])|
  }

  lemma {:induction false} ConcatAppend(a: seq<string>, b: seq<string>)
    ensures Concat(a + b) == Concat(a) + Concat(b)
    decreases |a|
  {
    if a == [] {
      assert a + b == b;
    } else {
      assert (a + b)[1..] == a[1..] + b;
      ConcatAppend(a[1..], b);
    }
  }

  /** Each piece can be read back, verbatim, at its offset; and the pieces do not overlap. */
  lemma ConcatSlot(ps: seq<string>, k: nat)
    requires k < |ps|
    ensures Offset(ps, k) + |ps[k]| == Offset(ps, k + 1) <= |Concat(ps)|
    ensures Concat(ps)[Offset(ps, k)..Offset(ps, k + 1)] == ps[k]
  {
    assert ps == ps[..k] + [ps[k]] + ps[k + 1..];
    ConcatAppend(ps[..k] + [ps[k]], ps[k + 1..]);
    ConcatAppend(ps[..k], [ps[k]]);
    assert ps[..k + 1] == ps[..k] + [ps[k]];
    assert Concat([ps[k]]) == ps[k] by {
      assert [ps[k]][1..] == [];
    }
    var pre := Concat(ps[..k]);
    assert Concat(ps) == pre + ps[k] + Concat(ps[k + 1..]);
    assert (pre + ps[k] + Concat(ps[k + 1..]))[|pre|..|pre| + |ps[k]|] == ps[k];
  }

  /** Offsets grow with the piece index. */
  lemma {:induction false} OffsetMonotone(ps: seq<string>, i: nat, j: nat)
    requires i <= j <= |ps|
    ensures Offset(ps, i) <= Offset(ps, j)
    decreases j - i
  {
    if i < j {
      ConcatSlot(ps, i);
      OffsetMonotone(ps, i + 1, j);
    }
  }

  function BibPieces(palette: Palette, title: string, cover: string, link: string, author: string): seq<string> {
    [Bib0, palette.darkGray, Bib1, link, Bib2, cover, Bib3, title, Bib4, author, Bib5]
  }

  /**
   * bookBibliography: a two-column block, the cover image linking to `link`
   * on the left, title and author on the right, bordered in the palette's
   * dark grey. Nothing else goes in: the frame's buffered content is not a
   * parameter.
   */
  function BookBibliography(palette: Palette, title: string, cover: string, link: string, author: string): (r: string)
  {
    Concat(BibPieces(palette, title, cover, link, author))
  }

  /**
   * Where each argument lands: the border colour, then link, cover, title
   * and author, in that order and without overlap, each verbatim, between
   * the fixed markup of the template.
   */
  lemma BibliographyLayout(palette: Palette, title: string, cover: string, link: string, author: string)
    ensures var ps := BibPieces(palette, title, cover, link, author);
      Offset(ps, 1) <= Offset(ps, 2) <= Offset(ps, 3) <= Offset(ps, 4) <= Offset(ps, 5)
      <= Offset(ps, 6) <= Offset(ps, 7) <= Offset(ps, 8) <= Offset(ps, 9) <= Offset(ps, 10)
      <= |BookBibliography(palette, title, cover, link, author)|
    ensures var ps := BibPieces(palette, title, cover, link, author);
      BookBibliography(palette, title, cover, link, author)[Offset(ps, 1)..Offset(ps, 2)] == palette.darkGray
    ensures var ps := BibPieces(palette, title, cover, link, author);
      BookBibliography(palette, title, cover, link, author)[Offset(ps, 3)..Offset(ps, 4)] == link
    ensures var ps := BibPieces(palette, title, cover, link, author);
      BookBibliography(palette, title, cover, link, author)[Offset(ps, 5)..Offset(ps, 6)] == cover
    ensures var ps := BibPieces(palette, title, cover, link, author);
      BookBibliography(palette, title, cover, link, author)[Offset(ps, 7)..Offset(ps, 8)] == title
    ensures var ps := BibPieces(palette, title, cover, link, author);
      BookBibliography(palette, title, cover, link, author)[Offset(ps, 9)..Offset(ps, 10)] == author
  {
    SlotsInOrder(BibPieces(palette, title, cover, link, author), 1, 10);
  }

  /** Pieces lo..hi-1 lie one after the other in Concat(ps), each verbatim. */
  lemma {:induction false} SlotsInOrder(ps: seq<string>, lo: nat, hi: nat)
    requires lo <= hi <= |ps|
    ensures Offset(ps, lo) <= Offset(ps, hi) <= |Concat(ps)|
    ensures forall k {:trigger Offset(ps, k)} :: lo <= k < hi ==>
      Offset(ps, k) + |ps[k]| == Offset(ps, k + 1) <= |Concat(ps)|
      && Concat(ps)[Offset(ps, k)..Offset(ps, k + 1)] == ps[k]
    decreases hi - lo
  {
    if lo == hi {
      if hi < |ps| {
        ConcatSlot(ps, hi);
      } else {
        assert ps[..hi] == ps;
      }
    } else {
      ConcatSlot(ps, lo);
      SlotsInOrder(ps, lo + 1, hi);
    }
  }

  /** The fixed markup is there too: the block opens with Bib0 and closes with Bib5. */
  lemma BibliographyFrame(palette: Palette, title: string, cover: string, link: string, author: string)
    ensures var r := BookBibliography(palette, title, cover, link, author);
      HasPrefix(r, Bib0) && HasSuffix(r, Bib5)
  {
    Framed(BibPieces(palette, title, cover, link, author));
  }

  /** Concat(ps) opens with the first piece and closes with the last. */
  lemma Framed(ps: seq<string>)
    requires ps != []
    ensures HasPrefix(Concat(ps), ps[0]) && HasSuffix(Concat(ps), ps[|ps| - 1])
  {
    var c, n := Concat(ps), |ps| - 1;
    ConcatSlot(ps, 0);
    assert ps[..0] == [];
    assert c[0..|ps[0]|] == ps[0];
    ConcatSlot(ps, n);
    assert ps[..n + 1] == ps;
    assert Offset(ps, n) == |c| - |ps[n]|;
    assert c[|c| - |ps[n]|..|c|] == ps[n];
  }
}
