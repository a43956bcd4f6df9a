/**
 * gen/pageconfig.go: the per-page configuration carried in a leading
 * `<!--- ... --->` comment, and the accessors the page layout reads.
 * The comment body is YAML; yaml.Unmarshal is a function-typed parameter
 * producing a map from keys to decoded values.
 */
module PageConfigs {
  import opened Ast
  import opened Strs

  /** A decoded YAML value, as far as the accessors distinguish them. */
  datatype Yaml = Null | Str(s: string) | List(items: seq<Yaml>) | Other(text: string)

  datatype PageConfig = PageConfig(m: map<string, Yaml>)

  const CommentOpen := "<!---"
  const CommentClose := "--->"
  const ErrBrokenCommentTag := "broken comment tag pair"

  /** Go's m[key] on an interface map: nil for a missing key. */
  function Lookup(c: PageConfig, key: string): Yaml {
    if key in c.m then c.m[key] else Null
  }

  /** newPageConfig: a nil map becomes an empty one. */
  function NewPageConfig(m: Option<map<string, Yaml>>): (c: PageConfig)
    ensures m.None? ==> c.m == map[]
    ensures m.Some? ==> c.m == m.value
  {
    PageConfig(if m.None? then map[] else m.value)
  }

  // -------------------------------------------------------- extractPageConfig

  /**
   * extractPageConfig as written: the close marker is searched from the
   * start of the input, and the payload is the slice between the markers,
   * which Go can only take when that index is not inside the open marker.
   */
  function ExtractAsWritten(src: string, unmarshal: string -> Result<map<string, Yaml>>): (r: Result<(PageConfig, string)>)
    requires var t := TrimSpace(src);
      HasPrefix(t, CommentOpen) && Index(t, CommentClose) >= 0 ==> Index(t, CommentClose) >= |CommentOpen|
    ensures r.Err? ==> HasPrefix(TrimSpace(src), CommentOpen)
    ensures r.Ok? ==> Trimmed(r.value.1)
  {
    var t := TrimSpace(src);
    if !HasPrefix(t, CommentOpen) then Ok((NewPageConfig(None), t))
    else CommentAsWritten(t, unmarshal)
  }

  /** The as-written branch for a trimmed input that starts with the open marker. */
  function CommentAsWritten(t: string, unmarshal: string -> Result<map<string, Yaml>>): (r: Result<(PageConfig, string)>)
    requires HasPrefix(t, CommentOpen)
    requires Index(t, CommentClose) >= 0 ==> Index(t, CommentClose) >= |CommentOpen|
    ensures r.Ok? ==> Trimmed(r.value.1)
  {
    var right := Index(t, CommentClose);
    if right == -1 then Err(ErrBrokenCommentTag)
    else
      match unmarshal(t[|CommentOpen|..right])
      case Err(e) => Err(e)
      case Ok(m) => Ok((NewPageConfig(Some(m)), TrimSpace(t[right + |CommentClose|..])))
  }

  /**
   * extractPageConfig with the close marker searched after the open marker,
   * so that an input whose markers overlap is a broken comment, not a slice
   * out of range.
   */
  function ExtractPageConfig(src: string, unmarshal: string -> Result<map<string, Yaml>>): (r: Result<(PageConfig, string)>)
    ensures r.Err? ==> HasPrefix(TrimSpace(src), CommentOpen)
    ensures r.Ok? ==> Trimmed(r.value.1)
  {
    var t := TrimSpace(src);
    if !HasPrefix(t, CommentOpen) then Ok((NewPageConfig(None), t))
    else AfterOpen(t[|CommentOpen|..], unmarshal)
  }

  /** The corrected branch, on the text after the open marker. */
  function AfterOpen(body: string, unmarshal: string -> Result<map<string, Yaml>>): (r: Result<(PageConfig, string)>)
    ensures r.Ok? ==> Trimmed(r.value.1)
  {
    var right := Index(body, CommentClose);
    if right == -1 then Err(ErrBrokenCommentTag)
    else
      match unmarshal(body[..right])
      case Err(e) => Err(e)
      case Ok(m) => Ok((NewPageConfig(Some(m)), TrimSpace(body[right + |CommentClose|..])))
  }

  /** Without the open marker the whole trimmed input is content and the config is empty. */
  lemma NoComment(src: string, unmarshal: string -> Result<map<string, Yaml>>)
    requires !HasPrefix(TrimSpace(src), CommentOpen)
    ensures ExtractPageConfig(src, unmarshal) == Ok((PageConfig(map[]), TrimSpace(src)))
  {
  }

  /** An open marker with no close marker after it is a broken comment. */
  lemma BrokenComment(src: string, unmarshal: string -> Result<map<string, Yaml>>)
    requires HasPrefix(TrimSpace(src), CommentOpen)
    requires forall j :: !OccursAt(TrimSpace(src)[|CommentOpen|..], CommentClose, j)
    ensures ExtractPageConfig(src, unmarshal) == Err(ErrBrokenCommentTag)
  {
  }

  /**
   * A page written as open marker, payload, close marker and rest (the
   * payload not containing the close marker) gives back the payload to the
   * YAML decoder and the trimmed rest as content.
   */
  lemma CommentRoundTrip(src: string, unmarshal: string -> Result<map<string, Yaml>>, payload: string, rest: string)
    requires TrimSpace(src) == CommentOpen + payload + CommentClose + rest
    requires NoEarlyOccurrence(payload, CommentClose)
    ensures ExtractPageConfig(src, unmarshal) ==
      match unmarshal(payload)
      case Err(e) => Err(e)
      case Ok(m) => Ok((PageConfig(m), TrimSpace(rest)))
  {
    OpenedBy(TrimSpace(src), CommentOpen, payload, CommentClose, rest);
    WithOpen(src, unmarshal);
    AfterOpenRoundTrip(unmarshal, payload, rest);
  }

  /** The markers and payload of a comment, read back from the text they make up. */
  lemma OpenedBy(t: string, open: string, payload: string, close: string, rest: string)
    requires t == open + payload + close + rest
    ensures HasPrefix(t, open) && t[|open|..] == payload + close + rest
  {
    assert t == open + (payload + close + rest);
  }

  lemma WithOpen(src: string, unmarshal: string -> Result<map<string, Yaml>>)
    requires HasPrefix(TrimSpace(src), CommentOpen)
    ensures ExtractPageConfig(src, unmarshal) == AfterOpen(TrimSpace(src)[|CommentOpen|..], unmarshal)
  {
  }

  lemma AfterOpenRoundTrip(unmarshal: string -> Result<map<string, Yaml>>, payload: string, rest: string)
    requires NoEarlyOccurrence(payload, CommentClose)
    ensures AfterOpen(payload + CommentClose + rest, unmarshal) ==
      match unmarshal(payload)
      case Err(e) => Err(e)
      case Ok(m) => Ok((PageConfig(m), TrimSpace(rest)))
  {
    FirstOccurrence(payload, CommentClose, rest);
  }

  /** Wherever the source's slice is in range, the corrected search finds the same split. */
  lemma AsWrittenAgrees(src: string, unmarshal: string -> Result<map<string, Yaml>>)
    requires var t := TrimSpace(src);
      HasPrefix(t, CommentOpen) && Index(t, CommentClose) >= 0 ==> Index(t, CommentClose) >= |CommentOpen|
    ensures ExtractAsWritten(src, unmarshal) == ExtractPageConfig(src, unmarshal)
  {
    var t := TrimSpace(src);
    if HasPrefix(t, CommentOpen) {
      CommentAgrees(t, unmarshal);
    }
  }

  lemma CommentAgrees(t: string, unmarshal: string -> Result<map<string, Yaml>>)
    requires HasPrefix(t, CommentOpen)
    requires Index(t, CommentClose) >= 0 ==> Index(t, CommentClose) >= |CommentOpen|
    ensures CommentAsWritten(t, unmarshal) == AfterOpen(t[|CommentOpen|..], unmarshal)
  {
    var n := |CommentOpen|;
    var body := t[n..];
    var right := Index(t, CommentClose);
    assert Index(body, CommentClose) == if right < 0 then -1 else right - n by {
      IndexAfterSkip(t, CommentClose, n);
    }
    if right >= 0 {
      var payload, rest := t[n..right], t[right + |CommentClose|..];
      assert body[..right - n] == payload;
      assert body[right - n + |CommentClose|..] == rest;
      assert CommentAsWritten(t, unmarshal) == AfterOpen(body, unmarshal);
    }
  }

  /**
   * The input "<!--->" carries the open marker, and the source finds the
   * close marker at index 2, inside the open marker: the as-written slice
   * src[5:2] is out of range. The corrected extraction reports a broken comment.
   */
  lemma OverlappingMarkers(unmarshal: string -> Result<map<string, Yaml>>)
    ensures var t := TrimSpace("<!--->");
      HasPrefix(t, CommentOpen) && Index(t, CommentClose) == 2 && 2 < |CommentOpen|
    ensures ExtractPageConfig("<!--->", unmarshal) == Err(ErrBrokenCommentTag)
  {
    var s := "<!--->";
    assert Trimmed(s);
    assert !OccursAt(s, CommentClose, 0) by {
      assert s[0..4][0] == '<' != CommentClose[0];
    }
    assert !OccursAt(s, CommentClose, 1) by {
      assert s[1..5][0] == '!' != CommentClose[0];
    }
    assert OccursAt(s, CommentClose, 2) by {
      assert s[2..6] == CommentClose;
    }
    assert IndexFrom(s, CommentClose, 2) == 2;
    assert IndexFrom(s, CommentClose, 1) == 2;
    assert Index(s, CommentClose) == 2;
    var body := s[|CommentOpen|..];
    assert body == ">";
    assert Index(body, CommentClose) == -1;
  }

  // -------------------------------------------------------------- accessors

  /** The shared shape of bannerRef, leftPane and rightPane: the string value, or "". */
  function StringOf(c: PageConfig, key: string): (r: string)
    ensures (key in c.m && c.m[key].Str?) ==> r == c.m[key].s
    ensures !(key in c.m && c.m[key].Str?) ==> r == ""
  {
    match Lookup(c, key)
    case Str(s) => s
    case _ => ""
  }

  function BannerRef(c: PageConfig): string {
    StringOf(c, "banner")
  }

  function LeftPane(c: PageConfig): string {
    StringOf(c, "left_pane")
  }

  function RightPane(c: PageConfig): string {
    StringOf(c, "right_pane")
  }

  const BannerHeight := "10em"

  /** header: the banner image, or nothing. `show` is fmt's %v for values other than strings. */
  function Header(c: PageConfig, show: Yaml -> string): (html: string)
    ensures html == "" <==> Lookup(c, "banner").Null?
    ensures Lookup(c, "banner").Str? ==>
      html == "<img src=\"" + Lookup(c, "banner").s + "\" style=\"width:100%;height:" + BannerHeight + ";object-fit:cover;\">"
  {
    var v := Lookup(c, "banner");
    if v.Null? then ""
    else
      var shown := if v.Str? then v.s else show(v);
      var html := "<img src=\"" + shown + "\" style=\"width:100%;height:" + BannerHeight + ";object-fit:cover;\">";
      assert html[0] == '<';
      html
  }

  /** One nav entry `label=target` as an anchor; None when it is not a string or not exactly one '='. */
  function NavEntry(v: Yaml): Option<string> {
    if !v.Str? then None
    else
      var kv := Split(v.s, '=');
      if |kv| != 2 then None else Some("<a href=\"" + kv[1] + "\">" + kv[0] + "</a>")
  }

  /** The anchors of all entries, or None as soon as one entry is unusable. */
  function NavLinks(items: seq<Yaml>): Option<seq<string>> {
    if items == [] then Some([])
    else
      match NavLinks(items[..|items| - 1])
      case None => None
      case Some(links) =>
        match NavEntry(items[|items| - 1])
        case None => None
        case Some(a) => Some(links + [a])
  }

  const NavIcon := "\U{1F517}"

  function NavFrame(links: seq<string>): string {
    "<span>" + NavIcon + "</span><span style=\"margin-left:1em;\">" + Join(links, " | ") + "</span>"
  }

  /** What nav produces. */
  function NavHtml(c: PageConfig): string {
    var v := Lookup(c, "nav");
    if !v.List? then ""
    else
      match NavLinks(v.items)
      case None => ""
      case Some(links) => NavFrame(links)
  }

  /** nav: the loop over the entries, giving up on the first unusable one. */
  method Nav(c: PageConfig) returns (html: string)
    ensures html == NavHtml(c)
  {
    var v := Lookup(c, "nav");
    if !v.List? {
      return "";
    }
    var arr := v.items;
    var links: seq<string> := [];
    var i := 0;
    while i < |arr|
      invariant 0 <= i <= |arr|
      invariant NavLinks(arr[..i]) == Some(links)
    {
      assert arr[..i + 1][..i] == arr[..i];
      if !arr[i].Str? {
        NavLinksNone(arr, i);
        return "";
      }
      var kv := Split(arr[i].s, '=');
      if |kv| != 2 {
        NavLinksNone(arr, i);
        return "";
      }
      links := links + ["<a href=\"" + kv[1] + "\">" + kv[0] + "</a>"];
      i := i + 1;
    }
    assert arr[..i] == arr;
    html := NavFrame(links);
  }

  /** One unusable entry empties the whole nav. */
  lemma {:induction false} NavLinksNone(items: seq<Yaml>, k: nat)
    requires k < |items| && NavEntry(items[k]).None?
    ensures NavLinks(items) == None
    decreases |items|
  {
    if k < |items| - 1 {
      NavLinksNone(items[..|items| - 1], k);
    }
  }

  /** With every entry usable, the anchors are the entries', one each, in order. */
  lemma {:induction false} NavLinksAll(items: seq<Yaml>)
    requires forall k :: 0 <= k < |items| ==> NavEntry(items[k]).Some?
    ensures NavLinks(items).Some? && |NavLinks(items).value| == |items|
    ensures forall k :: 0 <= k < |items| ==> NavLinks(items).value[k] == NavEntry(items[k]).value
    decreases |items|
  {
    if items != [] {
      var prev := items[..|items| - 1];
      assert forall k :: 0 <= k < |prev| ==> prev[k] == items[k];
      NavLinksAll(prev);
    }
  }

  /** An entry `label=target` with no other '=' becomes <a href="target">label</a>. */
  lemma NavEntryOf(text: string, target: string)
    requires '=' !in text && '=' !in target
    ensures NavEntry(Str(text + "=" + target)) == Some("<a href=\"" + target + "\">" + text + "</a>")
  {
    SplitJoin([text, target], '=');
    assert Join([text, target], "=") == text + "=" + target;
  }

  /** footer: a constant block, independent of the configuration. */
  const Footer := "\n\t<div style=\"max-width:fit-content;margin-inline:auto;\">\n\t\t<span style=\"font-size: 0.8em;\">Generated from markdown by\n\t\t<a href=\"https://github.com/iamjinlei/proteus\">proteus</a>\n\t\t</span>\n\t\t</div>\n\t</div>"

}
