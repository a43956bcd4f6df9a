/**
 * Reference collection, shared by the two markdown walks (gen/parser.go and
 * gen/markdown/parser.go, whose callbacks differ only in the heading case).
 *
 * A reference is internal unless it starts with http:// or https://. An
 * internal reference is re-rooted under the page's directory unless it
 * already starts with that directory (a plain string-prefix test), and
 * link destinations additionally get the configured suffix. Inline HTML is
 * searched for <img src=...> references, and its literal is re-serialised
 * only when lazy loading actually tagged an image.
 *
 * The markdown parser, the HTML parser and serialiser and filepath.Join are
 * library code and enter as function-typed parameters.
 */
module Refs {
  import opened Ast
  import opened Strs
  import Html
  import MarkdownHeadings

  /**
   * The HTML library as seen by walkHtmlDOMs: `imgs` lists the `src`
   * attribute (None when absent) of every <img> of a fragment, in document
   * order; `serialise` prints the fragment as a full document after
   * loading="lazy" is set on the listed images.
   */
  datatype DomLib = DomLib(
    imgs: string -> Result<seq<Option<string>>>,
    serialise: (string, seq<nat>) -> Result<string>)

  /** The walk's inputs: relPath, the link suffix, lazy loading, filepath.Join and the HTML library. */
  datatype Env = Env(
    relPath: string,
    suffix: string,
    lazy: bool,
    join: (string, string) -> string,
    dom: DomLib)

  /** The re-rooting both walks apply to an internal reference. */
  function Rebase(env: Env, ref: string): string {
    if HasPrefix(ref, env.relPath) then ref else env.join(env.relPath, ref)
  }

  predicate InternalImg(src: Option<string>) {
    src.Some? && !Html.IsExternalLink(src.value)
  }

  /** Indices of the images whose src is present and internal, in document order. */
  function Internal(srcs: seq<Option<string>>): seq<nat>
    ensures forall k :: 0 <= k < |Internal(srcs)| ==> Internal(srcs)[k] < |srcs|
  {
    if srcs == [] then []
    else
      var prev := srcs[..|srcs| - 1];
      Internal(prev) + (if InternalImg(srcs[|srcs| - 1]) then [|srcs| - 1] else [])
  }

  /** The references the img loop collects. */
  function ImgRefs(env: Env, srcs: seq<Option<string>>): seq<string> {
    if srcs == [] then []
    else
      var prev, last := srcs[..|srcs| - 1], srcs[|srcs| - 1];
      ImgRefs(env, prev) + (if InternalImg(last) then [Rebase(env, last.value)] else [])
  }

  const HtmlOpen := "<html><head></head><body>"
  const HtmlClose := "</body></html>"

  /** stripHTMLWrapper: the first occurrence of each wrapper string is removed. */
  function StripHTMLWrapper(html: string): string {
    ReplaceFirst(ReplaceFirst(html, HtmlOpen, ""), HtmlClose, "")
  }

  /** What walkHtmlDOMs returns: the (possibly rewritten) literal and the img refs, or the library's error. */
  function WalkHtmlSpec(env: Env, data: string): Result<(string, seq<string>)> {
    match env.dom.imgs(data)
    case Err(e) => Err(e)
    case Ok(srcs) =>
      if env.lazy && Internal(srcs) != [] then
        match env.dom.serialise(data, Internal(srcs))
        case Err(e) => Err(e)
        case Ok(h) => Ok((StripHTMLWrapper(h), ImgRefs(env, srcs)))
      else Ok((data, ImgRefs(env, srcs)))
  }

  /** walkHtmlDOMs: the Each loop over the images, then the optional re-serialisation. */
  method WalkHtmlDOMs(env: Env, data: string) returns (r: Result<(string, seq<string>)>)
    ensures r == WalkHtmlSpec(env, data)
  {
    var doc := env.dom.imgs(data);
    if doc.Err? {
      return Err(doc.error);
    }
    var srcs := doc.value;
    var refs: seq<string> := [];
    var hasUpdate := false;
    var lazified: seq<nat> := [];
    var i := 0;
    while i < |srcs|
      invariant 0 <= i <= |srcs|
      invariant refs == ImgRefs(env, srcs[..i])
      invariant lazified == (if env.lazy then Internal(srcs[..i]) else [])
      invariant hasUpdate == (env.lazy && Internal(srcs[..i]) != [])
    {
      assert srcs[..i + 1][..i] == srcs[..i];
      var src := srcs[i];
      if src.Some? {
        var ref := src.value;
        if !Html.IsExternalLink(ref) {
          if env.lazy {
            lazified := lazified + [i];
            hasUpdate := true;
          }
          if !HasPrefix(ref, env.relPath) {
            ref := env.join(env.relPath, ref);
          }
          refs := refs + [ref];
        }
      }
      i := i + 1;
    }
    assert srcs[..i] == srcs;
    var html := data;
    if hasUpdate {
      var h := env.dom.serialise(data, lazified);
      if h.Err? {
        return Err(h.error);
      }
      html := StripHTMLWrapper(h.value);
    }
    r := Ok((html, refs));
  }

  // ------------------------------------------------------- walkHtmlDOMs lemmas

  /** Internal lists exactly the images with a present, internal src, in increasing order. */
  lemma {:induction false} InternalExact(srcs: seq<Option<string>>)
    ensures forall a, b :: 0 <= a < b < |Internal(srcs)| ==> Internal(srcs)[a] < Internal(srcs)[b]
    ensures forall k :: 0 <= k < |Internal(srcs)| ==> InternalImg(srcs[Internal(srcs)[k]])
    ensures forall j :: 0 <= j < |srcs| && InternalImg(srcs[j]) ==> j in Internal(srcs)
  {
    if srcs != [] {
      var prev := srcs[..|srcs| - 1];
      InternalExact(prev);
      assert forall j :: 0 <= j < |prev| ==> prev[j] == srcs[j];
    }
  }

  /** The k-th collected reference is the re-rooted src of the k-th internal image. */
  lemma {:induction false} ImgRefsByIndex(env: Env, srcs: seq<Option<string>>)
    ensures |ImgRefs(env, srcs)| == |Internal(srcs)|
    ensures forall k :: 0 <= k < |Internal(srcs)| ==>
      srcs[Internal(srcs)[k]].Some? && ImgRefs(env, srcs)[k] == Rebase(env, srcs[Internal(srcs)[k]].value)
  {
    if srcs != [] {
      var prev := srcs[..|srcs| - 1];
      ImgRefsByIndex(env, prev);
      InternalExact(prev);
      assert forall j :: 0 <= j < |prev| ==> prev[j] == srcs[j];
    }
  }

  /** Without lazy loading, or with no internal image, the literal comes back as it was. */
  lemma LiteralKept(env: Env, data: string)
    requires env.dom.imgs(data).Ok?
    requires !env.lazy || Internal(env.dom.imgs(data).value) == []
    ensures WalkHtmlSpec(env, data) == Ok((data, ImgRefs(env, env.dom.imgs(data).value)))
  {
  }

  /** With lazy loading and some internal image, the literal is the serialised document, unwrapped. */
  lemma LiteralRewritten(env: Env, data: string)
    requires env.dom.imgs(data).Ok? && env.lazy && Internal(env.dom.imgs(data).value) != []
    ensures var srcs := env.dom.imgs(data).value;
      WalkHtmlSpec(env, data).Ok? <==> env.dom.serialise(data, Internal(srcs)).Ok?
    ensures var srcs := env.dom.imgs(data).value;
      env.dom.serialise(data, Internal(srcs)).Ok? ==>
        WalkHtmlSpec(env, data).value.0 == StripHTMLWrapper(env.dom.serialise(data, Internal(srcs)).value)
  {
  }

  // --------------------------------------------------- stripHTMLWrapper lemmas

  /** The serialiser's wrapper around a body is removed again when the body does not end the wrapper early. */
  lemma StripWrapped(body: string)
    requires forall j :: 0 <= j < |body| ==> !OccursAt(body + HtmlClose, HtmlClose, j)
    ensures StripHTMLWrapper(HtmlOpen + body + HtmlClose) == body
  {
    var s := HtmlOpen + body + HtmlClose;
    OccursAtStart(s, HtmlOpen);
    var s1 := ReplaceFirst(s, HtmlOpen, "");
    assert s1 == body + HtmlClose;
    assert OccursAt(s1, HtmlClose, |body|);
    assert Index(s1, HtmlClose) == |body|;
    assert s1[..|body|] == body;
  }

  /** Only the first opening wrapper is removed: later copies stay in place. */
  lemma StripFirstOnly(s: string)
    requires HasPrefix(s, HtmlOpen) && Index(s[|HtmlOpen|..], HtmlClose) < 0
    ensures StripHTMLWrapper(s) == s[|HtmlOpen|..]
  {
    OccursAtStart(s, HtmlOpen);
    assert ReplaceFirst(s, HtmlOpen, "") == s[|HtmlOpen|..];
  }

  /** A string without either wrapper is left alone. */
  lemma StripNoWrapper(s: string)
    requires Index(s, HtmlOpen) < 0 && Index(s, HtmlClose) < 0
    ensures StripHTMLWrapper(s) == s
  {
  }

  // ------------------------------------------------------------- node visits

  /**
   * The link, image and HTML-span cases of the walk callback: the node as
   * rewritten and the references it adds, or the HTML library's error.
   */
  function NodeRefs(env: Env, n: Node): (r: Result<(Node, seq<string>)>)
    ensures r.Ok? ==> (r.value.0.Heading? <==> n.Heading?)
    ensures n.Heading? ==> r == Ok((n, []))
  {
    match n
    case Link(d) =>
      if Html.IsExternalLink(d) then Ok((n, []))
      else var ref := Rebase(env, d); Ok((Link(ref + env.suffix), [ref]))
    case Image(d) =>
      if Html.IsExternalLink(d) then Ok((n, [])) else Ok((n, [Rebase(env, d)]))
    case HTMLSpan(lit) =>
      (match WalkHtmlSpec(env, lit)
       case Err(e) => Err(e)
       case Ok(v) => Ok((HTMLSpan(v.0), v.1)))
    case _ => Ok((n, []))
  }

  /** The callback body for one entered node other than a heading; rewrites the node in place. */
  method VisitNode(env: Env, nodes: array<Node>, i: nat) returns (rs: seq<string>, err: Option<string>)
    requires i < nodes.Length
    modifies nodes
    ensures NodeRefs(env, old(nodes[i])).Err? ==>
      err == Some(NodeRefs(env, old(nodes[i])).error) && nodes[..] == old(nodes[..])
    ensures NodeRefs(env, old(nodes[i])).Ok? ==>
      var (n, refs) := NodeRefs(env, old(nodes[i])).value;
      err == None && rs == refs && nodes[..] == old(nodes[..])[i := n]
  {
    rs, err := [], None;
    match nodes[i]
    case Link(d) =>
      var ref := d;
      if !Html.IsExternalLink(ref) {
        if !HasPrefix(ref, env.relPath) {
          ref := env.join(env.relPath, ref);
        }
        nodes[i] := Link(ref + env.suffix);
        rs := [ref];
      }
    case Image(d) =>
      var ref := d;
      if !Html.IsExternalLink(ref) {
        if !HasPrefix(ref, env.relPath) {
          ref := env.join(env.relPath, ref);
        }
        rs := [ref];
      }
    case HTMLSpan(lit) =>
      var w := WalkHtmlDOMs(env, lit);
      if w.Err? {
        err := Some(w.error);
      } else {
        nodes[i] := HTMLSpan(w.value.0);
        rs := w.value.1;
      }
    case _ =>
  }

  // -------------------------------------------------------------- the walk

  /** The callback's state: the nodes (rewritten in place), refs, headings added and walkErr. */
  datatype State = State(
    nodes: seq<Node>,
    refs: seq<string>,
    adds: seq<MarkdownHeadings.Entry>,
    err: Option<string>)

  function Start(nodes: seq<Node>): State {
    State(nodes, [], [], None)
  }

  predicate ValidEvents(events: seq<Event>, n: nat) {
    forall k :: 0 <= k < |events| ==> events[k].node < n
  }

  /**
   * The heading text is read through a type assertion on the sole child, so
   * a single-child heading must have a Text child (otherwise Go panics);
   * gomarkdown's levels are at least 1.
   */
  predicate Readable(nodes: seq<Node>) {
    forall i :: 0 <= i < |nodes| && nodes[i].Heading? && |nodes[i].children| == 1 ==>
      nodes[i].children[0].Text? && nodes[i].level >= 1
  }

  predicate LeveledAdds(adds: seq<MarkdownHeadings.Entry>) {
    forall k :: 0 <= k < |adds| ==> adds[k].level >= 1
  }

  /** The entry a heading with a single Text child is recorded as; the ID is "" because the markdown parser calls add without one. */
  function HeadingEntry(n: Node): seq<MarkdownHeadings.Entry>
    requires n.Heading?
    requires |n.children| == 1 ==> n.children[0].Text?
  {
    if |n.children| != 1 then [] else [MarkdownHeadings.Entry(n.level, "", n.children[0].literal)]
  }

  /**
   * One callback invocation. `headings` selects the markdown package's
   * version (which records headings) over the gen package's (which does not).
   */
  function Visit(env: Env, headings: bool, s: State, e: Event): (r: (State, WalkStatus))
    requires e.node < |s.nodes| && (headings ==> Readable(s.nodes))
    ensures |r.0.nodes| == |s.nodes|
  {
    if !e.entering then (s, GoToNext)
    else
      var n := s.nodes[e.node];
      if n.Heading? then
        if headings then (s.(adds := s.adds + HeadingEntry(n)), GoToNext) else (s, GoToNext)
      else
        match NodeRefs(env, n)
        case Err(x) => (s.(err := Some(x)), Terminate)
        case Ok(v) => (s.(nodes := s.nodes[e.node := v.0], refs := s.refs + v.1), GoToNext)
  }

  lemma VisitKeepsReadable(env: Env, headings: bool, s: State, e: Event)
    requires e.node < |s.nodes| && (headings ==> Readable(s.nodes))
    requires LeveledAdds(s.adds)
    ensures headings ==> Readable(Visit(env, headings, s, e).0.nodes)
    ensures LeveledAdds(Visit(env, headings, s, e).0.adds)
  {
  }

  /** ast.WalkFunc over the event sequence: stop after a callback returns Terminate. */
  function Walk(env: Env, headings: bool, s: State, events: seq<Event>): (r: State)
    requires ValidEvents(events, |s.nodes|) && (headings ==> Readable(s.nodes)) && LeveledAdds(s.adds)
    ensures |r.nodes| == |s.nodes| && LeveledAdds(r.adds)
    decreases |events|
  {
    if events == [] then s
    else
      VisitKeepsReadable(env, headings, s, events[0]);
      var (t, st) := Visit(env, headings, s, events[0]);
      if st == Terminate then t else Walk(env, headings, t, events[1..])
  }

  // -------------------------------------------------------------- per-case lemmas

  /** Leaving events are ignored. */
  lemma LeavingIgnored(env: Env, headings: bool, s: State, i: nat)
    requires i < |s.nodes| && (headings ==> Readable(s.nodes))
    ensures Visit(env, headings, s, Event(i, false)) == (s, GoToNext)
  {
  }

  /**
   * An internal link: the reference is the destination when it already
   * starts with relPath and Join(relPath, destination) otherwise; it is
   * recorded without the suffix, and the destination becomes ref + suffix.
   */
  lemma InternalLink(env: Env, headings: bool, s: State, i: nat, d: string)
    requires i < |s.nodes| && (headings ==> Readable(s.nodes))
    requires s.nodes[i] == Link(d) && !Html.IsExternalLink(d)
    ensures var ref := if HasPrefix(d, env.relPath) then d else env.join(env.relPath, d);
      Visit(env, headings, s, Event(i, true)) ==
        (s.(nodes := s.nodes[i := Link(ref + env.suffix)], refs := s.refs + [ref]), GoToNext)
  {
  }

  /** An internal image is re-rooted and recorded; the node itself is not modified. */
  lemma InternalImage(env: Env, headings: bool, s: State, i: nat, d: string)
    requires i < |s.nodes| && (headings ==> Readable(s.nodes))
    requires s.nodes[i] == Image(d) && !Html.IsExternalLink(d)
    ensures var ref := if HasPrefix(d, env.relPath) then d else env.join(env.relPath, d);
      Visit(env, headings, s, Event(i, true)) == (s.(refs := s.refs + [ref]), GoToNext)
  {
    assert s.nodes[i := Image(d)] == s.nodes;
  }

  /** External links and images are neither recorded nor modified. */
  lemma ExternalTarget(env: Env, headings: bool, s: State, i: nat)
    requires i < |s.nodes| && (headings ==> Readable(s.nodes))
    requires (s.nodes[i].Link? || s.nodes[i].Image?) && Html.IsExternalLink(s.nodes[i].destination)
    ensures Visit(env, headings, s, Event(i, true)) == (s, GoToNext)
  {
    assert s.nodes[i := s.nodes[i]] == s.nodes;
    assert s.refs + [] == s.refs;
  }

  /** A span's img refs are appended at the span's position and its literal replaced; a library error stops the walk. */
  lemma SpanVisit(env: Env, headings: bool, s: State, i: nat, lit: string)
    requires i < |s.nodes| && (headings ==> Readable(s.nodes))
    requires s.nodes[i] == HTMLSpan(lit)
    ensures WalkHtmlSpec(env, lit).Err? ==>
      Visit(env, headings, s, Event(i, true)) == (s.(err := Some(WalkHtmlSpec(env, lit).error)), Terminate)
    ensures WalkHtmlSpec(env, lit).Ok? ==>
      var (body, rs) := WalkHtmlSpec(env, lit).value;
      Visit(env, headings, s, Event(i, true)) ==
        (s.(nodes := s.nodes[i := HTMLSpan(body)], refs := s.refs + rs), GoToNext)
  {
  }

  /** Any other entered node: its own references and rewrite, or the error that stops the walk. */
  lemma OtherVisit(env: Env, headings: bool, s: State, i: nat)
    requires i < |s.nodes| && (headings ==> Readable(s.nodes)) && !s.nodes[i].Heading?
    ensures NodeRefs(env, s.nodes[i]).Err? ==>
      Visit(env, headings, s, Event(i, true)) == (s.(err := Some(NodeRefs(env, s.nodes[i]).error)), Terminate)
    ensures NodeRefs(env, s.nodes[i]).Ok? ==>
      var (n, rs) := NodeRefs(env, s.nodes[i]).value;
      Visit(env, headings, s, Event(i, true)) == (s.(nodes := s.nodes[i := n], refs := s.refs + rs), GoToNext)
  {
  }

  /** The markdown walk records a heading only when it has exactly one child, under that child's text. */
  lemma HeadingVisit(env: Env, s: State, i: nat)
    requires i < |s.nodes| && Readable(s.nodes) && s.nodes[i].Heading?
    ensures var n := s.nodes[i];
      Visit(env, true, s, Event(i, true)) ==
        (if |n.children| == 1
         then s.(adds := s.adds + [MarkdownHeadings.Entry(n.level, "", n.children[0].literal)])
         else s, GoToNext)
  {
    assert s.adds + [] == s.adds;
  }

  /** The gen walk has no heading case. */
  lemma HeadingIgnored(env: Env, s: State, i: nat)
    requires i < |s.nodes| && s.nodes[i].Heading?
    ensures Visit(env, false, s, Event(i, true)) == (s, GoToNext)
  {
  }

  /** A callback that returns Terminate ends the walk: later events change nothing. */
  lemma TerminateStops(env: Env, headings: bool, s: State, events: seq<Event>)
    requires ValidEvents(events, |s.nodes|) && (headings ==> Readable(s.nodes)) && LeveledAdds(s.adds)
    requires events != [] && Visit(env, headings, s, events[0]).1 == Terminate
    ensures Walk(env, headings, s, events) == Visit(env, headings, s, events[0]).0
    ensures Walk(env, headings, s, events).err.Some?
  {
  }

  // The walk after its first event: stopped there, or the rest of the walk from the new state.
  lemma WalkUnfold(env: Env, headings: bool, s: State, events: seq<Event>, t: State, st: WalkStatus)
    requires ValidEvents(events, |s.nodes|) && (headings ==> Readable(s.nodes)) && LeveledAdds(s.adds)
    requires events != [] && (t, st) == Visit(env, headings, s, events[0])
    ensures ValidEvents(events[1..], |t.nodes|) && (headings ==> Readable(t.nodes)) && LeveledAdds(t.adds)
    ensures Walk(env, headings, s, events) == if st == Terminate then t else Walk(env, headings, t, events[1..])
  {
    VisitKeepsReadable(env, headings, s, events[0]);
  }

  // -------------------------------------------------------------- walk order

  /** Every node is entered at most once by a walk of a tree. */
  predicate EnteredOnce(events: seq<Event>) {
    forall a, b :: 0 <= a < b < |events| && events[a].entering && events[b].entering ==>
      events[a].node != events[b].node
  }

  function AddedRefs(env: Env, n: Node): seq<string> {
    if NodeRefs(env, n).Ok? then NodeRefs(env, n).value.1 else []
  }

  /** The references of the entered nodes, in event order, read off the original nodes. */
  function EventRefs(env: Env, nodes: seq<Node>, events: seq<Event>): seq<string>
    requires ValidEvents(events, |nodes|)
    decreases |events|
  {
    if events == [] then []
    else
      (if events[0].entering then AddedRefs(env, nodes[events[0].node]) else [])
      + EventRefs(env, nodes, events[1..])
  }

  function AddedHeading(n: Node): seq<MarkdownHeadings.Entry>
    requires n.Heading? && |n.children| == 1 ==> n.children[0].Text?
  {
    if n.Heading? then HeadingEntry(n) else []
  }

  /** The headings of the entered nodes, in event order. */
  function EventHeadings(nodes: seq<Node>, events: seq<Event>): seq<MarkdownHeadings.Entry>
    requires ValidEvents(events, |nodes|) && Readable(nodes)
    decreases |events|
  {
    if events == [] then []
    else
      (if events[0].entering then AddedHeading(nodes[events[0].node]) else [])
      + EventHeadings(nodes, events[1..])
  }

  /** The walk state still shows nodes0 for every node the remaining events enter. */
  predicate Untouched(s: State, nodes0: seq<Node>, events: seq<Event>)
    requires ValidEvents(events, |s.nodes|) && |nodes0| == |s.nodes|
  {
    forall k :: 0 <= k < |events| && events[k].entering ==> s.nodes[events[k].node] == nodes0[events[k].node]
  }

  lemma VisitUntouched(env: Env, headings: bool, s: State, nodes0: seq<Node>, events: seq<Event>)
    requires events != [] && ValidEvents(events, |s.nodes|) && |nodes0| == |s.nodes|
    requires headings ==> Readable(s.nodes)
    requires EnteredOnce(events) && Untouched(s, nodes0, events)
    ensures var t := Visit(env, headings, s, events[0]).0;
      ValidEvents(events[1..], |t.nodes|) && Untouched(t, nodes0, events[1..]) && EnteredOnce(events[1..])
  {
    var t := Visit(env, headings, s, events[0]).0;
    forall k | 0 <= k < |events[1..]| && events[1..][k].entering
      ensures t.nodes[events[1..][k].node] == nodes0[events[1..][k].node]
    {
      assert events[1..][k] == events[k + 1];
      assert events[0].entering ==> events[0].node != events[k + 1].node;
    }
  }

  /**
   * References accumulate in walk order, duplicates kept, each entered
   * node contributing its own references (a span's img refs at the span's
   * position); the markdown walk records its headings in the same order.
   */
  lemma {:induction false} WalkCollects(env: Env, headings: bool, s: State, nodes0: seq<Node>, events: seq<Event>)
    requires ValidEvents(events, |s.nodes|) && |nodes0| == |s.nodes| && LeveledAdds(s.adds)
    requires headings ==> Readable(s.nodes) && Readable(nodes0)
    requires EnteredOnce(events) && Untouched(s, nodes0, events)
    requires s.err.None? && Walk(env, headings, s, events).err.None?
    ensures Walk(env, headings, s, events).refs == s.refs + EventRefs(env, nodes0, events)
    ensures headings ==> Walk(env, headings, s, events).adds == s.adds + EventHeadings(nodes0, events)
    ensures !headings ==> Walk(env, headings, s, events).adds == s.adds
    decreases |events|
  {
    if events != [] {
      var t, st := WalkStep(env, headings, s, nodes0, events);
      if st != Terminate {
        WalkCollects(env, headings, t, nodes0, events[1..]);
        var r := Walk(env, headings, t, events[1..]);
        var e := events[0];
        var own := if e.entering then AddedRefs(env, nodes0[e.node]) else [];
        assert EventRefs(env, nodes0, events) == own + EventRefs(env, nodes0, events[1..]);
        assert r.refs == (s.refs + own) + EventRefs(env, nodes0, events[1..]);
        if headings {
          var head := if e.entering then AddedHeading(nodes0[e.node]) else [];
          assert EventHeadings(nodes0, events) == head + EventHeadings(nodes0, events[1..]);
          assert r.adds == (s.adds + head) + EventHeadings(nodes0, events[1..]);
        }
      }
    }
  }

  // The first event of a walk over untouched nodes: what it leaves for the rest of the walk.
  lemma WalkStep(env: Env, headings: bool, s: State, nodes0: seq<Node>, events: seq<Event>)
      returns (t: State, st: WalkStatus)
    requires events != [] && ValidEvents(events, |s.nodes|) && |nodes0| == |s.nodes| && LeveledAdds(s.adds)
    requires headings ==> Readable(s.nodes) && Readable(nodes0)
    requires EnteredOnce(events) && Untouched(s, nodes0, events) && s.err.None?
    ensures ValidEvents(events[1..], |t.nodes|) && |t.nodes| == |s.nodes| && LeveledAdds(t.adds)
    ensures headings ==> Readable(t.nodes)
    ensures Untouched(t, nodes0, events[1..]) && EnteredOnce(events[1..])
    ensures Walk(env, headings, s, events) == if st == Terminate then t else Walk(env, headings, t, events[1..])
    ensures st != Terminate <==> t.err.None?
    ensures var e := events[0]; st != Terminate ==>
      t.refs == s.refs + (if e.entering then AddedRefs(env, nodes0[e.node]) else [])
      && (headings ==> t.adds == s.adds + (if e.entering then AddedHeading(nodes0[e.node]) else []))
      && (!headings ==> t.adds == s.adds)
  {
    VisitKeepsReadable(env, headings, s, events[0]);
    VisitUntouched(env, headings, s, nodes0, events);
    t, st := Visit(env, headings, s, events[0]).0, Visit(env, headings, s, events[0]).1;
    var e := events[0];
    assert e.entering ==> s.nodes[e.node] == nodes0[e.node];
    if st != Terminate {
      VisitCollects(env, headings, s, nodes0, e, t, st);
    }
  }

  // One visit that does not stop the walk adds the entered node's own references and heading.
  lemma VisitCollects(env: Env, headings: bool, s: State, nodes0: seq<Node>, e: Event, t: State, st: WalkStatus)
    requires e.node < |s.nodes| && |nodes0| == |s.nodes| && (headings ==> Readable(s.nodes) && Readable(nodes0))
    requires LeveledAdds(s.adds) && s.err.None?
    requires e.entering ==> s.nodes[e.node] == nodes0[e.node]
    requires (t, st) == Visit(env, headings, s, e) && st != Terminate
    ensures t.refs == s.refs + (if e.entering then AddedRefs(env, nodes0[e.node]) else [])
    ensures headings ==> t.adds == s.adds + (if e.entering then AddedHeading(nodes0[e.node]) else [])
    ensures !headings ==> t.adds == s.adds
  {
  }
}
