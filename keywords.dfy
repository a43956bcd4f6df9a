/**
 * gen/markdown/keywords.go: the keyword index, a map from keyword type to
 * the keywords recorded under it, in insertion order, with no
 * deduplication.
 */
module KeywordIndex {
  datatype Keyword = Keyword(value: string, target: string)

  class Keywords {
    const colorMap: map<string, string>
    var index: map<string, seq<Keyword>>

    /** newKeywords. */
    constructor (colorMap: map<string, string>)
      ensures this.colorMap == colorMap && index == map[]
    {
      this.colorMap := colorMap;
      index := map[];
    }

    /** Get: the keywords of type t in insertion order; none for a type never added. */
    function Get(t: string): (r: seq<Keyword>)
      reads this
      ensures t !in index ==> r == []
      ensures t in index ==> r == index[t]
    {
      if t in index then index[t] else []
    }

    /** Color: colorMap[t], or the zero colour "" when absent. */
    function Color(t: string): (c: string)
      ensures t in colorMap ==> c == colorMap[t]
      ensures t !in colorMap ==> c == ""
    {
      if t in colorMap then colorMap[t] else ""
    }

    /** add: append to t's list; the other lists are unchanged. */
    method Add(t: string, val: string, target: string)
      modifies this
      ensures index == old(index)[t := old(Get(t)) + [Keyword(val, target)]]
      ensures Get(t) == old(Get(t)) + [Keyword(val, target)]
      ensures forall u :: u != t ==> Get(u) == old(Get(u))
    {
      index := index[t := Get(t) + [Keyword(val, target)]];
    }
  }

  /** add keeps duplicates: adding the same keyword twice lists it twice. */
  method AddTwice(kws: Keywords, t: string, val: string, target: string)
    modifies kws
    ensures kws.Get(t) == old(kws.Get(t)) + [Keyword(val, target), Keyword(val, target)]
  {
    kws.Add(t, val, target);
    kws.Add(t, val, target);
  }
}

/**
 * gen/keywords.go: renderKeywords, the keyword box. Only the `name` list
 * is shown, each value once (its first entry), in order; the CSS template
 * has its two colour placeholders replaced everywhere.
 */
module GenKeywords {
  import opened Strs
  import opened KeywordIndex
  import Dom

  const KwName := "name"

  const LightGrayPlaceholder := "{{ .Palette.LightGray }}"
  const NameBoxPlaceholder := "{{ .NameBoxBgColor }}"

  const KwsCss := "\n.kws {\n\tposition: -webkit-sticky; /* Safari */\n\tposition: sticky;\n\tfloat: left;\n\ttop: 10em;\n\tmargin-left: 2em;\n\tfont-size: 1em;\n}\n.kws .namebox {\n\tdisplay: inline-block;\n\tbackground-color: {{ .NameBoxBgColor }};\n\tborder: 1px solid {{ .Palette.LightGray }};\n\tborder-radius:4px;\n\tpadding: 4px 8px;\n\tmargin: 4px;\n}\n.kws a {\n\ttext-decoration: none;\n\tcolor: #000000;\n}\n"

  function Values(l: seq<Keyword>): set<string> {
    if l == [] then {} else Values(l[..|l| - 1]) + {l[|l| - 1].value}
  }

  /** The first entry of each distinct value, in list order. */
  function Dedupe(l: seq<Keyword>): seq<Keyword> {
    if l == [] then []
    else
      var prev, last := l[..|l| - 1], l[|l| - 1];
      if last.value in Values(prev) then Dedupe(prev) else Dedupe(prev) + [last]
  }

  function Span(kw: Keyword): string {
    "<span class=\"namebox\"><a href=\"#" + kw.target + "\">" + kw.value + "</a></span>"
  }

  function Spans(l: seq<Keyword>): string {
    if l == [] then "" else Spans(l[..|l| - 1]) + Span(l[|l| - 1])
  }

  function KwsHtml(kws: seq<Keyword>): string {
    "<div class=\"kws\">" + Spans(Dedupe(kws)) + "</div>"
  }

  function KwsStyle(lightGray: string, nameBox: string): string {
    ReplaceAll(ReplaceAll(KwsCss, LightGrayPlaceholder, lightGray), NameBoxPlaceholder, nameBox)
  }

  /** renderKeywords: the name list's boxes, then the CSS. `hex` is Color.Hex. */
  method RenderKeywords(kws: Keywords, palette: Dom.Palette, hex: string -> string) returns (html: string, css: string)
    ensures html == KwsHtml(kws.Get(KwName))
    ensures css == KwsStyle(hex(palette.lightGray), hex(kws.Color(KwName)))
  {
    var spans := UniqueSpans(kws.Get(KwName));
    css := ReplaceAll(KwsCss, LightGrayPlaceholder, hex(palette.lightGray));
    css := ReplaceAll(css, NameBoxPlaceholder, hex(kws.Color(KwName)));
    html := "<div class=\"kws\">" + spans + "</div>";
  }

  /** The dedupe loop of renderKeywords: one box per value, for its first entry. */
  method UniqueSpans(list: seq<Keyword>) returns (spans: string)
    ensures spans == Spans(Dedupe(list))
  {
    var seen: map<string, bool> := map[];
    spans := "";
    ghost var kept: seq<Keyword> := [];
    for i := 0 to |list|
      invariant kept == Dedupe(list[..i]) && spans == Spans(kept)
      invariant forall v :: v in seen <==> v in Values(list[..i])
      invariant forall v :: v in seen ==> seen[v]
    {
      var kw := list[i];
      assert list[..i + 1][..i] == list[..i];
      if kw.value in seen && seen[kw.value] {
        continue;
      }
      seen := seen[kw.value := true];
      spans := spans + Span(kw);
      kept := kept + [kw];
    }
    assert list[..|list|] == list;
  }

  // ---------------------------------------------------------------- lemmas

  lemma {:induction false} ValuesMember(l: seq<Keyword>, v: string)
    ensures v in Values(l) <==> exists i :: 0 <= i < |l| && l[i].value == v
  {
    if l != [] {
      var prev := l[..|l| - 1];
      ValuesMember(prev, v);
      assert forall i :: 0 <= i < |prev| ==> prev[i] == l[i];
      if v in Values(prev) {
        var i :| 0 <= i < |prev| && prev[i].value == v;
        assert l[i].value == v;
      }
    }
  }

  /** The box shows every value of the list. */
  lemma {:induction false} DedupeCovers(l: seq<Keyword>)
    ensures Values(Dedupe(l)) == Values(l)
  {
    if l != [] {
      var prev := l[..|l| - 1];
      DedupeCovers(prev);
      if l[|l| - 1].value !in Values(prev) {
        var d := Dedupe(prev);
        assert (d + [l[|l| - 1]])[..|d|] == d;
      }
    }
  }

  /** No value is shown twice. */
  lemma {:induction false} DedupeDistinct(l: seq<Keyword>)
    ensures forall a, b :: 0 <= a < b < |Dedupe(l)| ==> Dedupe(l)[a].value != Dedupe(l)[b].value
  {
    if l != [] {
      var prev, last := l[..|l| - 1], l[|l| - 1];
      DedupeDistinct(prev);
      if last.value !in Values(prev) {
        var d := Dedupe(prev);
        DedupeCovers(prev);
        forall a | 0 <= a < |d| ensures d[a].value != last.value {
          ValuesMember(d, d[a].value);
        }
      }
    }
  }

  /** Each shown entry is the first entry of its value, and every first entry is shown. */
  lemma {:induction false} DedupeFirst(l: seq<Keyword>)
    ensures forall x :: x in Dedupe(l) ==> x in l
    ensures forall i :: 0 <= i < |l| && l[i].value !in Values(l[..i]) ==> l[i] in Dedupe(l)
  {
    if l != [] {
      var prev, last := l[..|l| - 1], l[|l| - 1];
      DedupeFirst(prev);
      forall i | 0 <= i < |l| && l[i].value !in Values(l[..i])
        ensures l[i] in Dedupe(l)
      {
        if i < |prev| {
          assert prev[i] == l[i] && prev[..i] == l[..i];
        } else {
          assert l[..i] == prev;
        }
      }
    }
  }
}
