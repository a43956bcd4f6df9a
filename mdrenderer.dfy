/**
 * The render hook of gen/markdown/renderer.go: a push-down automaton over
 * inline HTML spans that gomarkdown's HTML renderer calls for every node
 * event of the walk.
 *
 * An opening `<mark KEY>` (KEY a known colour name) or `<ins
 * type="book_bib">` pushes a frame; while frames are open every write goes
 * to the innermost frame's buffer; the closing literal of the innermost
 * frame pops it and writes its finalized content to the writer that was
 * current when the frame was opened. A `reentry` flag lets the hook hand a
 * node back to the library renderer without being called again for it.
 *
 * Writers are named by Target: the document's output (Root) or the
 * buffer of the frame at a given stack position. The library renderer
 * (RenderNode's own output for a node, CodeBlock) and golang.org/x/net/html
 * (parseTag, renderTag) are the functions of a Library value.
 *
 * The functions over Machine, a snapshot of the hook's state, specify the
 * hook; class RenderHook implements it with the fields Go updates; the
 * lemmas state the automaton's properties on the specification.
 */
module MarkdownRenderer {
  import opened Ast
  import opened Strs
  import opened Html
  import opened Dom

  /** The library code the hook calls. */
  datatype Library = Library(
    renderNode: (Node, bool) -> (string, WalkStatus),
    codeBlock: Node -> string,
    parseTag: string -> Result<Tag>,
    renderTag: Tag -> Result<string>)

  /** Renderer: what NewRenderer fixes for every Render call. */
  datatype Config = Config(
    palette: Palette,
    colorMap: map<string, string>,
    codeBlockStyle: string,
    internalRefHtmlSuffix: string,
    lazyImageLoading: bool)

  /** The palette's fields by lowercased field name, as the reflection loop enters them. */
  function FieldColors(p: Palette): map<string, string> {
    map[
      "red" := p.red, "green" := p.green, "blue" := p.blue, "yellow" := p.yellow,
      "orange" := p.orange, "pink" := p.pink, "lightgray" := p.lightGray, "darkgray" := p.darkGray,
      "highlighterred" := p.highlighterRed, "highlightergreen" := p.highlighterGreen,
      "highlighterblue" := p.highlighterBlue, "highlighteryellow" := p.highlighterYellow,
      "highlighterorange" := p.highlighterOrange]
  }

  const PaletteNames: set<string> := {
    "red", "green", "blue", "yellow", "orange", "pink", "lightgray", "darkgray",
    "highlighterred", "highlightergreen", "highlighterblue", "highlighteryellow", "highlighterorange"}

  const AliasNames: set<string> := {"name", "b", "c", "d", "e"}

  /** The colour map: the palette's fields, then the five highlighter aliases. */
  function ColorMap(p: Palette): map<string, string> {
    FieldColors(p)["name" := p.highlighterRed]["b" := p.highlighterGreen]["c" := p.highlighterBlue]
      ["d" := p.highlighterYellow]["e" := p.highlighterOrange]
  }

  /** NewRenderer. */
  function NewRenderer(palette: Palette, codeBlockStyle: string, internalRefHtmlSuffix: string,
                       lazyImageLoading: bool): (r: Config)
    ensures r.colorMap == ColorMap(palette) && r.palette == palette && r.codeBlockStyle == codeBlockStyle
      && r.internalRefHtmlSuffix == internalRefHtmlSuffix && r.lazyImageLoading == lazyImageLoading
  {
    Config(palette, ColorMap(palette), codeBlockStyle, internalRefHtmlSuffix, lazyImageLoading)
  }

  /** The colour map's keys: the thirteen lowercased palette field names and the five aliases. */
  lemma ColorMapKeys(p: Palette)
    ensures ColorMap(p).Keys == PaletteNames + AliasNames
  {
    assert FieldColors(p).Keys == PaletteNames;
  }

  /** No alias collides with a field name, so every field keeps its own colour. */
  lemma ColorMapFields(p: Palette)
    ensures forall k :: k in PaletteNames ==> ColorMap(p)[k] == FieldColors(p)[k]
  {
    ColorMapKeys(p);
    forall k | k in PaletteNames ensures ColorMap(p)[k] == FieldColors(p)[k] {
      AliasNotField(k);
    }
  }

  lemma AliasNotField(k: string)
    requires k in PaletteNames
    ensures k !in AliasNames
  {
  }

  /** The aliases name, b, c, d, e select the red, green, blue, yellow and orange highlighters. */
  lemma ColorMapAliases(p: Palette)
    ensures ColorMap(p)["name"] == p.highlighterRed && ColorMap(p)["b"] == p.highlighterGreen
      && ColorMap(p)["c"] == p.highlighterBlue && ColorMap(p)["d"] == p.highlighterYellow
      && ColorMap(p)["e"] == p.highlighterOrange
  {
  }

  datatype Target = Root | Buf(k: nat)

  /** The closure a frame runs when it is closed. */
  datatype Finalizer = HighlightWith(color: string) | Bibliography

  /** htmlTagBuf: the writer current when the frame was opened, the opening tag, the buffer, the closing literal, the closure. */
  datatype Frame = Frame(w: Target, openingTag: Tag, buf: string, closingTag: string, fn: Finalizer)

  /** The state the hook and the walk change: the document output, the frames, the flags and the AST nodes. */
  datatype Machine = Machine(out: string, stack: seq<Frame>, reentry: bool, err: Option<string>, nodes: seq<Node>)

  function Init(nodes: seq<Node>): Machine {
    Machine([], [], false, None, nodes)
  }

  predicate ValidTarget(m: Machine, w: Target) {
    w.Root? || w.k < |m.stack|
  }

  /** Frame 0 was opened on the document output, frame k on frame k-1's buffer. */
  predicate WellNested(stack: seq<Frame>) {
    forall k :: 0 <= k < |stack| ==> stack[k].w == (if k == 0 then Root else Buf(k - 1))
  }

  function WriteTo(m: Machine, w: Target, s: string): (r: Machine)
    requires ValidTarget(m, w)
    ensures |r.stack| == |m.stack| && r.nodes == m.nodes && r.reentry == m.reentry && r.err == m.err
  {
    if w.Root? then m.(out := m.out + s)
    else m.(stack := m.stack[w.k := m.stack[w.k].(buf := m.stack[w.k].buf + s)])
  }

  /** Two writes to the same target add up to one write of both strings. */
  lemma WriteConcat(m: Machine, w: Target, a: string, b: string)
    requires ValidTarget(m, w)
    ensures WriteTo(WriteTo(m, w, a), w, b) == WriteTo(m, w, a + b)
  {
    if w.Buf? {
      assert m.stack[w.k].buf + a + b == m.stack[w.k].buf + (a + b);
    } else {
      assert m.out + a + b == m.out + (a + b);
    }
  }

  /** With a frame open, the hook writes to the innermost frame's buffer. */
  function Redirect(m: Machine, w: Target): Target {
    if |m.stack| > 0 then Buf(|m.stack| - 1) else w
  }

  /** What a closed frame writes: the highlighted buffer, or the bibliography block (the buffer is dropped). */
  function Finalize(cfg: Config, f: Frame): string {
    match f.fn
    case HighlightWith(color) => Highlight(f.buf, color)
    case Bibliography =>
      BookBibliography(cfg.palette, GetTagAttr(f.openingTag, "title"), GetTagAttr(f.openingTag, "cover"),
                       GetTagAttr(f.openingTag, "link"), GetTagAttr(f.openingTag, "author"))
  }

  /** renderNodeDefault: the library renders the node to `w`; `reentry` is false again afterwards. */
  function DefaultSpec(lib: Library, m: Machine, w: Target, i: nat, entering: bool): (Machine, WalkStatus)
    requires ValidTarget(m, w) && i < |m.nodes|
  {
    var (text, st) := lib.renderNode(m.nodes[i], entering);
    (WriteTo(m, w, text).(reentry := false), st)
  }

  function CodeBlockOpen(cfg: Config): string {
    "<div style=\"" + cfg.codeBlockStyle + "\">"
  }

  /** renderCodeBlock: the library's code block wrapped in a div with the configured style. */
  function CodeBlockSpec(cfg: Config, lib: Library, m: Machine, w: Target, i: nat): (Machine, WalkStatus)
    requires ValidTarget(m, w) && i < |m.nodes|
  {
    (WriteTo(m, w, CodeBlockOpen(cfg) + lib.codeBlock(m.nodes[i]) + "</div>"), GoToNext)
  }

  function Push(m: Machine, f: Frame): Machine {
    m.(stack := m.stack + [f])
  }

  /** The colour a <mark> tag selects: its only attribute's key, when that key is a known colour name. */
  function MarkColor(cfg: Config, tag: Tag): Option<string> {
    var name := GetTagOnlyAttr(tag).0;
    if name != "" && name in cfg.colorMap then Some(cfg.colorMap[name]) else None
  }

  /** processHTMLOpeningTag. */
  function OpeningSpec(cfg: Config, lib: Library, m: Machine, w: Target, i: nat, entering: bool): (Machine, WalkStatus)
    requires ValidTarget(m, w) && i < |m.nodes| && m.nodes[i].HTMLSpan?
  {
    match lib.parseTag(m.nodes[i].literal)
    case Err(e) => (m.(err := Some(e)), Terminate)
    case Ok(tag) =>
      if tag.data == "img" && cfg.lazyImageLoading then
        match lib.renderTag(Tag(tag.data, SetAttr(tag.attr, "loading", "lazy")))
        case Err(e) => (m.(err := Some(e)), Terminate)
        case Ok(v) => DefaultSpec(lib, m.(nodes := m.nodes[i := HTMLSpan(v)]), w, i, entering)
      else if tag.data == "ins" && GetTagAttr(tag, "type") == "book_bib" then
        (Push(m, Frame(w, tag, [], "</ins>", Bibliography)), GoToNext)
      else if tag.data == "mark" && MarkColor(cfg, tag).Some? then
        (Push(m, Frame(w, tag, [], "</mark>", HighlightWith(MarkColor(cfg, tag).value))), GoToNext)
      else DefaultSpec(lib, m, w, i, entering)
  }

  /** processHTMLClosingTag. */
  function ClosingSpec(cfg: Config, lib: Library, m: Machine, w: Target, i: nat, entering: bool): (Machine, WalkStatus)
    requires ValidTarget(m, w) && i < |m.nodes| && m.nodes[i].HTMLSpan? && WellNested(m.stack)
  {
    if |m.stack| == 0 || m.nodes[i].literal != m.stack[|m.stack| - 1].closingTag then
      DefaultSpec(lib, m, w, i, entering)
    else
      var tb := m.stack[|m.stack| - 1];
      var popped := m.(stack := m.stack[..|m.stack| - 1]);
      (WriteTo(popped, tb.w, Finalize(cfg, tb)), GoToNext)
  }

  predicate IsClosingSpan(n: Node) {
    n.HTMLSpan? && HasPrefix(n.literal, "</")
  }

  /** renderHook.render: (new state, walk status, whether the node is handled). */
  function HookSpec(cfg: Config, lib: Library, m: Machine, w: Target, i: nat, entering: bool): (Machine, WalkStatus, bool)
    requires ValidTarget(m, w) && i < |m.nodes| && WellNested(m.stack)
  {
    if m.reentry then (m, GoToNext, false)
    else
      var v := Redirect(m, w);
      var n := m.nodes[i];
      if n.CodeBlock? then
        var (r, st) := CodeBlockSpec(cfg, lib, m, v, i); (r, st, true)
      else if n.HTMLSpan? then
        var (r, st) := if IsClosingSpan(n) then ClosingSpec(cfg, lib, m, v, i, entering)
                       else OpeningSpec(cfg, lib, m, v, i, entering);
        (r, st, true)
      else
        var m' := if n.Link? && !IsExternalLink(n.destination)
                  then m.(nodes := m.nodes[i := Link(n.destination + cfg.internalRefHtmlSuffix)])
                  else m;
        var (r, st) := DefaultSpec(lib, m', v, i, entering); (r, st, true)
  }

  /** html.Renderer.RenderNode: the hook first; the library's own rendering when the hook does not handle the node. */
  function RenderNodeSpec(cfg: Config, lib: Library, m: Machine, w: Target, i: nat, entering: bool): (Machine, WalkStatus)
    requires ValidTarget(m, w) && i < |m.nodes| && WellNested(m.stack)
  {
    var (r, st, handled) := HookSpec(cfg, lib, m, w, i, entering);
    if handled then (r, st)
    else
      var (text, st') := lib.renderNode(r.nodes[i], entering);
      (WriteTo(r, w, text), st')
  }

  lemma WriteKeepsNested(m: Machine, w: Target, s: string)
    requires ValidTarget(m, w) && WellNested(m.stack)
    ensures WellNested(WriteTo(m, w, s).stack)
  {
    var r := WriteTo(m, w, s);
    forall k | 0 <= k < |r.stack| ensures r.stack[k].w == m.stack[k].w {
    }
  }

  lemma DefaultKeepsShape(lib: Library, m: Machine, w: Target, i: nat, entering: bool)
    requires ValidTarget(m, w) && i < |m.nodes| && WellNested(m.stack)
    ensures var r := DefaultSpec(lib, m, w, i, entering).0;
      WellNested(r.stack) && |r.nodes| == |m.nodes| && !r.reentry
  {
    WriteKeepsNested(m, w, lib.renderNode(m.nodes[i], entering).0);
  }

  lemma OpeningKeepsShape(cfg: Config, lib: Library, m: Machine, w: Target, i: nat, entering: bool)
    requires ValidTarget(m, w) && i < |m.nodes| && m.nodes[i].HTMLSpan? && WellNested(m.stack) && !m.reentry
    requires w == Redirect(m, w)
    ensures var r := OpeningSpec(cfg, lib, m, w, i, entering).0;
      WellNested(r.stack) && |r.nodes| == |m.nodes| && !r.reentry
  {
    match lib.parseTag(m.nodes[i].literal)
    case Err(e) =>
    case Ok(tag) =>
      if tag.data == "img" && cfg.lazyImageLoading {
        match lib.renderTag(Tag(tag.data, SetAttr(tag.attr, "loading", "lazy")))
        case Err(e) =>
        case Ok(v) => DefaultKeepsShape(lib, m.(nodes := m.nodes[i := HTMLSpan(v)]), w, i, entering);
      } else if tag.data == "ins" && GetTagAttr(tag, "type") == "book_bib" {
        PushKeepsNested(m, Frame(w, tag, [], "</ins>", Bibliography));
      } else if tag.data == "mark" && MarkColor(cfg, tag).Some? {
        PushKeepsNested(m, Frame(w, tag, [], "</mark>", HighlightWith(MarkColor(cfg, tag).value)));
      } else {
        DefaultKeepsShape(lib, m, w, i, entering);
      }
  }

  lemma PushKeepsNested(m: Machine, f: Frame)
    requires WellNested(m.stack) && f.w == (if |m.stack| == 0 then Root else Buf(|m.stack| - 1))
    ensures WellNested(Push(m, f).stack)
  {
  }

  lemma ClosingKeepsShape(cfg: Config, lib: Library, m: Machine, w: Target, i: nat, entering: bool)
    requires ValidTarget(m, w) && i < |m.nodes| && m.nodes[i].HTMLSpan? && WellNested(m.stack) && !m.reentry
    ensures var r := ClosingSpec(cfg, lib, m, w, i, entering).0;
      WellNested(r.stack) && |r.nodes| == |m.nodes| && !r.reentry
  {
    if |m.stack| == 0 || m.nodes[i].literal != m.stack[|m.stack| - 1].closingTag {
      DefaultKeepsShape(lib, m, w, i, entering);
    } else {
      PopKeepsNested(m, Finalize(cfg, m.stack[|m.stack| - 1]));
    }
  }

  // Closing the top frame writes to the target it was opened on, which still exists.
  lemma PopKeepsNested(m: Machine, s: string)
    requires |m.stack| > 0 && WellNested(m.stack)
    ensures var popped := m.(stack := m.stack[..|m.stack| - 1]);
      ValidTarget(popped, m.stack[|m.stack| - 1].w)
      && WellNested(WriteTo(popped, m.stack[|m.stack| - 1].w, s).stack)
      && |WriteTo(popped, m.stack[|m.stack| - 1].w, s).nodes| == |m.nodes|
  {
    var popped := m.(stack := m.stack[..|m.stack| - 1]);
    assert WellNested(popped.stack);
    WriteKeepsNested(popped, m.stack[|m.stack| - 1].w, s);
  }

  // One event leaves a machine that can take the next one.
  lemma StepKeepsShape(cfg: Config, lib: Library, m: Machine, w: Target, i: nat, entering: bool)
    requires ValidTarget(m, w) && i < |m.nodes| && WellNested(m.stack) && !m.reentry
    ensures var r := RenderNodeSpec(cfg, lib, m, w, i, entering).0;
      WellNested(r.stack) && |r.nodes| == |m.nodes| && !r.reentry
  {
    var v := Redirect(m, w);
    var n := m.nodes[i];
    if n.CodeBlock? {
      WriteKeepsNested(m, v, CodeBlockOpen(cfg) + lib.codeBlock(m.nodes[i]) + "</div>");
    } else if n.HTMLSpan? {
      if IsClosingSpan(n) {
        ClosingKeepsShape(cfg, lib, m, v, i, entering);
      } else {
        OpeningKeepsShape(cfg, lib, m, v, i, entering);
      }
    } else {
      var m' := if n.Link? && !IsExternalLink(n.destination)
                then m.(nodes := m.nodes[i := Link(n.destination + cfg.internalRefHtmlSuffix)])
                else m;
      DefaultKeepsShape(lib, m', v, i, entering);
    }
  }

  /**
   * The walk: each event goes to RenderNode with the document writer, until
   * one answers Terminate. The flag says whether the walk was cut short.
   */
  function Run(cfg: Config, lib: Library, m: Machine, events: seq<Event>): (Machine, bool)
    requires WellNested(m.stack) && !m.reentry
    requires forall e :: e in events ==> e.node < |m.nodes|
    decreases |events|
  {
    if events == [] then (m, false)
    else
      StepKeepsShape(cfg, lib, m, Root, events[0].node, events[0].entering);
      var (r, st) := RenderNodeSpec(cfg, lib, m, Root, events[0].node, events[0].entering);
      if st == Terminate then (r, true)
      else
        assert forall e :: e in events[1..] ==> e in events;
        Run(cfg, lib, r, events[1..])
  }

  // Run takes one event at a time: a terminating step ends it, any other step leaves the rest to run.
  lemma RunStep(cfg: Config, lib: Library, m: Machine, events: seq<Event>, r: Machine, st: WalkStatus)
    requires WellNested(m.stack) && !m.reentry
    requires forall e :: e in events ==> e.node < |m.nodes|
    requires events != [] && (r, st) == RenderNodeSpec(cfg, lib, m, Root, events[0].node, events[0].entering)
    ensures WellNested(r.stack) && !r.reentry && |r.nodes| == |m.nodes|
    ensures st == Terminate ==> Run(cfg, lib, m, events) == (r, true)
    ensures st != Terminate ==> Run(cfg, lib, m, events) == Run(cfg, lib, r, events[1..])
  {
    StepKeepsShape(cfg, lib, m, Root, events[0].node, events[0].entering);
  }

  /** Renderer.Render: the document's HTML, or "" and the error the hook recorded. */
  function RenderResult(cfg: Config, lib: Library, nodes: seq<Node>, events: seq<Event>): (string, Option<string>)
    requires forall e :: e in events ==> e.node < |nodes|
  {
    var m := Run(cfg, lib, Init(nodes), events).0;
    if m.err.Some? then ([], m.err) else (m.out, None)
  }

  /** Any event that can reach the hook: one of the walk's nodes, written to a writer that exists. */
  predicate Ready(m: Machine, w: Target, i: nat) {
    ValidTarget(m, w) && i < |m.nodes| && WellNested(m.stack) && !m.reentry
  }

  /** The event is the closing literal of the innermost open frame. */
  predicate ClosesTop(m: Machine, i: nat)
    requires i < |m.nodes|
  {
    IsClosingSpan(m.nodes[i]) && |m.stack| > 0 && m.nodes[i].literal == m.stack[|m.stack| - 1].closingTag
  }

  /** Frame `f` with more content in its buffer, and nothing else changed. */
  predicate Extends(g: Frame, f: Frame) {
    g == f.(buf := g.buf) && HasPrefix(g.buf, f.buf)
  }

  lemma WriteExtendsTop(m: Machine, s: string)
    requires |m.stack| > 0
    ensures var r := WriteTo(m, Buf(|m.stack| - 1), s);
      r.out == m.out && r.stack[..|m.stack| - 1] == m.stack[..|m.stack| - 1]
      && Extends(r.stack[|m.stack| - 1], m.stack[|m.stack| - 1])
  {
    var n := |m.stack| - 1;
    var r := WriteTo(m, Buf(n), s);
    assert r.stack[n].buf == m.stack[n].buf + s;
    assert r.stack[n].buf[..|m.stack[n].buf|] == m.stack[n].buf;
  }

  /**
   * While a frame is open, an event writes nothing to the document output
   * and touches no frame but the innermost: its buffer grows, or a new frame
   * opens above it. Only the innermost frame's own closing literal differs.
   */
  lemma TopBufferOnly(cfg: Config, lib: Library, m: Machine, w: Target, i: nat, entering: bool)
    requires Ready(m, w, i) && |m.stack| > 0 && !ClosesTop(m, i)
    ensures var r := RenderNodeSpec(cfg, lib, m, w, i, entering).0;
      var n := |m.stack| - 1;
      r.out == m.out && |r.stack| >= |m.stack|
      && r.stack[..n] == m.stack[..n]
      && Extends(r.stack[n], m.stack[n])
  {
    var n := |m.stack| - 1;
    var top := Buf(n);
    assert Redirect(m, w) == top;
    var node := m.nodes[i];
    var r := RenderNodeSpec(cfg, lib, m, w, i, entering).0;
    if node.CodeBlock? {
      WriteExtendsTop(m, CodeBlockOpen(cfg) + lib.codeBlock(node) + "</div>");
    } else if node.HTMLSpan? {
      if IsClosingSpan(node) {
        WriteExtendsTop(m, lib.renderNode(node, entering).0);
      } else {
        OpeningTopBufferOnly(cfg, lib, m, top, i, entering);
      }
    } else {
      var m' := if node.Link? && !IsExternalLink(node.destination)
                then m.(nodes := m.nodes[i := Link(node.destination + cfg.internalRefHtmlSuffix)])
                else m;
      WriteExtendsTop(m', lib.renderNode(m'.nodes[i], entering).0);
    }
  }

  lemma OpeningTopBufferOnly(cfg: Config, lib: Library, m: Machine, top: Target, i: nat, entering: bool)
    requires Ready(m, top, i) && |m.stack| > 0 && top == Buf(|m.stack| - 1) && m.nodes[i].HTMLSpan?
    ensures var r := OpeningSpec(cfg, lib, m, top, i, entering).0;
      var n := |m.stack| - 1;
      r.out == m.out && |r.stack| >= |m.stack|
      && r.stack[..n] == m.stack[..n]
      && Extends(r.stack[n], m.stack[n])
  {
    var n := |m.stack| - 1;
    assert Extends(m.stack[n], m.stack[n]);
    match lib.parseTag(m.nodes[i].literal)
    case Err(_) =>
    case Ok(tag) =>
      if tag.data == "img" && cfg.lazyImageLoading {
        match lib.renderTag(Tag(tag.data, SetAttr(tag.attr, "loading", "lazy")))
        case Err(_) =>
        case Ok(v) =>
          var m' := m.(nodes := m.nodes[i := HTMLSpan(v)]);
          WriteExtendsTop(m', lib.renderNode(m'.nodes[i], entering).0);
      } else if tag.data == "ins" && GetTagAttr(tag, "type") == "book_bib" {
      } else if tag.data == "mark" && MarkColor(cfg, tag).Some? {
      } else {
        WriteExtendsTop(m, lib.renderNode(m.nodes[i], entering).0);
      }
  }

  /** An internal link gets the suffix appended to its destination; an external link keeps it. */
  lemma LinkRewrite(cfg: Config, lib: Library, m: Machine, w: Target, i: nat, entering: bool)
    requires Ready(m, w, i) && m.nodes[i].Link?
    ensures var dest := m.nodes[i].destination;
      RenderNodeSpec(cfg, lib, m, w, i, entering).0.nodes
        == m.nodes[i := Link(if IsExternalLink(dest) then dest else dest + cfg.internalRefHtmlSuffix)]
  {
    if IsExternalLink(m.nodes[i].destination) {
      assert m.nodes[i := m.nodes[i]] == m.nodes;
    }
  }

  /**
   * A closing span with no frame open, or not the innermost frame's closing
   * literal, is rendered by the library into the current writer and leaves
   * the frames as they were, apart from that write.
   */
  lemma MismatchedClose(cfg: Config, lib: Library, m: Machine, w: Target, i: nat, entering: bool)
    requires Ready(m, w, i) && IsClosingSpan(m.nodes[i]) && !ClosesTop(m, i)
    ensures var (r, st) := RenderNodeSpec(cfg, lib, m, w, i, entering);
      var (text, st') := lib.renderNode(m.nodes[i], entering);
      st == st' && r == WriteTo(m, Redirect(m, w), text)
      && |r.stack| == |m.stack|
      && forall k :: 0 <= k < |m.stack| ==> r.stack[k] == m.stack[k].(buf := r.stack[k].buf)
  {
  }

  /**
   * The innermost frame's closing literal pops exactly that frame and writes
   * its finalized content to the writer it captured: the document output for
   * the outermost frame, the enclosing frame's buffer otherwise.
   */
  lemma MatchingClose(cfg: Config, lib: Library, m: Machine, w: Target, i: nat, entering: bool)
    requires Ready(m, w, i) && ClosesTop(m, i)
    ensures var (r, st) := RenderNodeSpec(cfg, lib, m, w, i, entering);
      var n := |m.stack| - 1;
      var fin := Finalize(cfg, m.stack[n]);
      st == GoToNext && |r.stack| == n
      && (n == 0 ==> r.out == m.out + fin)
      && (n > 0 ==> r.out == m.out && r.stack[..n - 1] == m.stack[..n - 1]
                    && r.stack[n - 1] == m.stack[n - 1].(buf := m.stack[n - 1].buf + fin))
  {
    var n := |m.stack| - 1;
    assert RenderNodeSpec(cfg, lib, m, w, i, entering).1 == GoToNext;
    assert RenderNodeSpec(cfg, lib, m, w, i, entering).0
        == WriteTo(m.(stack := m.stack[..n]), m.stack[n].w, Finalize(cfg, m.stack[n]));
    PopWrites(m, Finalize(cfg, m.stack[n]));
  }

  // Closing the top frame writes to the document output or to the buffer of the frame below it.
  lemma PopWrites(m: Machine, fin: string)
    requires |m.stack| > 0 && WellNested(m.stack)
    ensures var n := |m.stack| - 1;
      var r := WriteTo(m.(stack := m.stack[..n]), m.stack[n].w, fin);
      |r.stack| == n
      && (n == 0 ==> r.out == m.out + fin)
      && (n > 0 ==> r.out == m.out && r.stack[..n - 1] == m.stack[..n - 1]
                    && r.stack[n - 1] == m.stack[n - 1].(buf := m.stack[n - 1].buf + fin))
  {
    var n := |m.stack| - 1;
    assert m.stack[n].w == (if n == 0 then Root else Buf(n - 1));
  }

  /**
   * `<mark KEY>` opens a highlight frame exactly when the tag has one
   * attribute and its key is a non-empty colour name; otherwise the span is
   * rendered by the library.
   */
  lemma MarkRule(cfg: Config, lib: Library, m: Machine, w: Target, i: nat, entering: bool, tag: Tag)
    requires Ready(m, w, i) && m.nodes[i].HTMLSpan? && !IsClosingSpan(m.nodes[i])
    requires lib.parseTag(m.nodes[i].literal) == Ok(tag) && tag.data == "mark"
    ensures var (r, st) := RenderNodeSpec(cfg, lib, m, w, i, entering);
      var opens := |tag.attr| == 1 && tag.attr[0].key != "" && tag.attr[0].key in cfg.colorMap;
      (opens ==> st == GoToNext && r == m.(stack := m.stack + [
                   Frame(Redirect(m, w), tag, [], "</mark>", HighlightWith(cfg.colorMap[tag.attr[0].key]))]))
      && (!opens ==> (r, st) == DefaultSpec(lib, m, Redirect(m, w), i, entering))
  {
  }

  /** `<ins>` opens a bibliography frame exactly when its `type` is `book_bib`; otherwise it is rendered by the library. */
  lemma InsRule(cfg: Config, lib: Library, m: Machine, w: Target, i: nat, entering: bool, tag: Tag)
    requires Ready(m, w, i) && m.nodes[i].HTMLSpan? && !IsClosingSpan(m.nodes[i])
    requires lib.parseTag(m.nodes[i].literal) == Ok(tag) && tag.data == "ins"
    ensures var (r, st) := RenderNodeSpec(cfg, lib, m, w, i, entering);
      var opens := GetTagAttr(tag, "type") == "book_bib";
      (opens ==> st == GoToNext && r == m.(stack := m.stack + [Frame(Redirect(m, w), tag, [], "</ins>", Bibliography)]))
      && (!opens ==> (r, st) == DefaultSpec(lib, m, Redirect(m, w), i, entering))
  {
  }

  /** What a bibliography frame buffered never reaches the output. */
  lemma BibliographyDropsContent(cfg: Config, f: Frame, content: string)
    requires f.fn.Bibliography?
    ensures Finalize(cfg, f.(buf := content)) == Finalize(cfg, f)
  {
  }

  /** A span that golang.org/x/net/html cannot parse records the error and terminates the walk. */
  lemma ParseErrorTerminates(cfg: Config, lib: Library, m: Machine, w: Target, i: nat, entering: bool)
    requires Ready(m, w, i) && m.nodes[i].HTMLSpan? && !IsClosingSpan(m.nodes[i])
    requires lib.parseTag(m.nodes[i].literal).Err?
    ensures RenderNodeSpec(cfg, lib, m, w, i, entering)
         == (m.(err := Some(lib.parseTag(m.nodes[i].literal).error)), Terminate)
  {
  }

  /** The hook records an error only together with Terminate. */
  lemma ErrorOnlyWithTerminate(cfg: Config, lib: Library, m: Machine, w: Target, i: nat, entering: bool)
    requires Ready(m, w, i) && m.err.None?
    ensures var (r, st) := RenderNodeSpec(cfg, lib, m, w, i, entering);
      r.err.Some? ==> st == Terminate
  {
    var node := m.nodes[i];
    if node.HTMLSpan? && !IsClosingSpan(node) {
      var v := Redirect(m, w);
      match lib.parseTag(node.literal)
      case Err(_) =>
      case Ok(tag) =>
        if tag.data == "img" && cfg.lazyImageLoading {
          match lib.renderTag(Tag(tag.data, SetAttr(tag.attr, "loading", "lazy")))
          case Err(_) =>
          case Ok(v') =>
        }
    }
  }

  /** A walk that was not cut short can be continued: running a then b is running a + b. */
  lemma {:induction false} RunAppend(cfg: Config, lib: Library, m: Machine, a: seq<Event>, b: seq<Event>)
    requires WellNested(m.stack) && !m.reentry
    requires forall e :: e in a + b ==> e.node < |m.nodes|
    requires !Run(cfg, lib, m, a).1
    ensures var r := Run(cfg, lib, m, a).0;
      WellNested(r.stack) && !r.reentry && |r.nodes| == |m.nodes|
      && Run(cfg, lib, m, a + b) == Run(cfg, lib, r, b)
    decreases |a|
  {
    if a != [] {
      StepKeepsShape(cfg, lib, m, Root, a[0].node, a[0].entering);
      var (r, st) := RenderNodeSpec(cfg, lib, m, Root, a[0].node, a[0].entering);
      assert (a + b)[0] == a[0] && (a + b)[1..] == a[1..] + b;
      assert forall e :: e in a[1..] + b ==> e in a + b;
      assert forall e :: e in a[1..] ==> e in a + b;
      RunAppend(cfg, lib, r, a[1..], b);
    } else {
      assert a + b == b;
    }
  }

  /**
   * Once the walk reaches an opening span that cannot be parsed, whatever
   * came before and whatever would follow, Render returns "" and the
   * parse error.
   */
  lemma ParseErrorAbortsRender(cfg: Config, lib: Library, nodes: seq<Node>, pre: seq<Event>, e: Event, post: seq<Event>)
    requires forall x :: x in pre + [e] + post ==> x.node < |nodes|
    requires forall x :: x in pre ==> x.node < |nodes|
    requires !Run(cfg, lib, Init(nodes), pre).1
    requires var m := Run(cfg, lib, Init(nodes), pre).0;
      m.err.None? && e.node < |m.nodes| && m.nodes[e.node].HTMLSpan? && !IsClosingSpan(m.nodes[e.node])
      && lib.parseTag(m.nodes[e.node].literal).Err?
    ensures RenderResult(cfg, lib, nodes, pre + [e] + post)
         == ([], Some(lib.parseTag(Run(cfg, lib, Init(nodes), pre).0.nodes[e.node].literal).error))
  {
    var m := Run(cfg, lib, Init(nodes), pre).0;
    assert pre + [e] + post == pre + ([e] + post);
    RunAppend(cfg, lib, Init(nodes), pre, [e] + post);
    ParseErrorTerminates(cfg, lib, m, Root, e.node, e.entering);
  }

  /**
   * renderHook, with the document output it writes to (`out`) and the AST
   * nodes it rewrites (`nodes`). Its methods are proved to compute the
   * specification functions above.
   */
  class RenderHook {
    const cfg: Config
    const lib: Library
    const nodes: array<Node>
    var out: string
    var reentry: bool
    var tagBufStack: seq<Frame>
    var err: Option<string>

    constructor (cfg: Config, lib: Library, nodes: array<Node>)
      ensures this.cfg == cfg && this.lib == lib && this.nodes == nodes
      ensures State() == Init(nodes[..])
    {
      this.cfg := cfg;
      this.lib := lib;
      this.nodes := nodes;
      out := [];
      reentry := false;
      tagBufStack := [];
      err := None;
    }

    function State(): Machine
      reads this, nodes
    {
      Machine(out, tagBufStack, reentry, err, nodes[..])
    }

    method Write(w: Target, s: string)
      requires ValidTarget(State(), w)
      modifies this
      ensures State() == WriteTo(old(State()), w, s)
    {
      if w.Root? {
        out := out + s;
      } else {
        tagBufStack := tagBufStack[w.k := tagBufStack[w.k].(buf := tagBufStack[w.k].buf + s)];
      }
    }

    /** html.Renderer.RenderNode, which consults the hook first. */
    method RenderNode(w: Target, i: nat, entering: bool) returns (st: WalkStatus)
      requires ValidTarget(State(), w) && i < nodes.Length && WellNested(tagBufStack)
      modifies this, nodes
      ensures (State(), st) == RenderNodeSpec(cfg, lib, old(State()), w, i, entering)
      decreases if reentry then 0 else 1, 5
    {
      ghost var m := State();
      var s, handled := Render(w, i, entering);
      assert (State(), s, handled) == HookSpec(cfg, lib, m, w, i, entering);
      if handled {
        return s;
      }
      var (text, s') := lib.renderNode(nodes[i], entering);
      Write(w, text);
      st := s';
    }

    /** renderHook.render. */
    method Render(w: Target, i: nat, entering: bool) returns (st: WalkStatus, handled: bool)
      requires ValidTarget(State(), w) && i < nodes.Length && WellNested(tagBufStack)
      modifies this, nodes
      ensures (State(), st, handled) == HookSpec(cfg, lib, old(State()), w, i, entering)
      ensures old(reentry) ==> st == GoToNext && !handled && State() == old(State())
      decreases if reentry then 0 else 1, 4
    {
      if reentry {
        return GoToNext, false;
      }
      var v := w;
      if |tagBufStack| > 0 {
        v := Buf(|tagBufStack| - 1);
      }
      var n := nodes[i];
      if n.CodeBlock? {
        st := RenderCodeBlock(v, i, entering);
        return st, true;
      } else if n.HTMLSpan? {
        st := ProcessHTMLTag(v, i, entering);
        return st, true;
      } else if n.Link? && !IsExternalLink(n.destination) {
        nodes[i] := Link(n.destination + cfg.internalRefHtmlSuffix);
      }
      st := RenderNodeDefault(v, i, entering);
      handled := true;
    }

    /** renderNodeDefault: hand the node to the library with `reentry` set, then clear it. */
    method RenderNodeDefault(w: Target, i: nat, entering: bool) returns (st: WalkStatus)
      requires !reentry && ValidTarget(State(), w) && i < nodes.Length && WellNested(tagBufStack)
      modifies this, nodes
      ensures (State(), st) == DefaultSpec(lib, old(State()), w, i, entering)
      ensures !reentry
      decreases 1, 1
    {
      reentry := true;
      st := RenderNode(w, i, entering);
      reentry := false;
    }

    method RenderCodeBlock(w: Target, i: nat, entering: bool) returns (st: WalkStatus)
      requires ValidTarget(State(), w) && i < nodes.Length
      modifies this
      ensures (State(), st) == CodeBlockSpec(cfg, lib, old(State()), w, i)
    {
      ghost var m := State();
      var open, body := CodeBlockOpen(cfg), lib.codeBlock(nodes[i]);
      Write(w, open);
      Write(w, body);
      WriteConcat(m, w, open, body);
      Write(w, "</div>");
      WriteConcat(m, w, open + body, "</div>");
      st := GoToNext;
    }

    method ProcessHTMLTag(w: Target, i: nat, entering: bool) returns (st: WalkStatus)
      requires !reentry && ValidTarget(State(), w) && i < nodes.Length && nodes[i].HTMLSpan?
      requires WellNested(tagBufStack)
      modifies this, nodes
      ensures (State(), st) == if IsClosingSpan(old(nodes[i])) then ClosingSpec(cfg, lib, old(State()), w, i, entering)
                               else OpeningSpec(cfg, lib, old(State()), w, i, entering)
      decreases 1, 3
    {
      if HasPrefix(nodes[i].literal, "</") {
        st := ProcessHTMLClosingTag(w, i, entering);
      } else {
        st := ProcessHTMLOpeningTag(w, i, entering);
      }
    }

    method ProcessHTMLOpeningTag(w: Target, i: nat, entering: bool) returns (st: WalkStatus)
      requires !reentry && ValidTarget(State(), w) && i < nodes.Length && nodes[i].HTMLSpan?
      requires WellNested(tagBufStack)
      modifies this, nodes
      ensures (State(), st) == OpeningSpec(cfg, lib, old(State()), w, i, entering)
      decreases 1, 2
    {
      var parsed := lib.parseTag(nodes[i].literal);
      if parsed.Err? {
        err := Some(parsed.error);
        return Terminate;
      }
      var tag := parsed.value;
      if tag.data == "img" {
        if cfg.lazyImageLoading {
          var t := new TagNode(tag);
          SetTagAttr(t, "loading", "lazy");
          var rendered := lib.renderTag(t.Value());
          if rendered.Err? {
            err := Some(rendered.error);
            return Terminate;
          }
          nodes[i] := HTMLSpan(rendered.value);
        }
      } else if tag.data == "ins" {
        if GetTagAttr(tag, "type") == "book_bib" {
          tagBufStack := tagBufStack + [Frame(w, tag, [], "</ins>", Bibliography)];
          return GoToNext;
        }
      } else if tag.data == "mark" {
        var (name, _) := GetTagOnlyAttr(tag);
        if name != "" && name in cfg.colorMap {
          var color := cfg.colorMap[name];
          tagBufStack := tagBufStack + [Frame(w, tag, [], "</mark>", HighlightWith(color))];
          return GoToNext;
        }
      }
      st := RenderNodeDefault(w, i, entering);
    }

    method ProcessHTMLClosingTag(w: Target, i: nat, entering: bool) returns (st: WalkStatus)
      requires !reentry && ValidTarget(State(), w) && i < nodes.Length && nodes[i].HTMLSpan?
      requires WellNested(tagBufStack)
      modifies this, nodes
      ensures (State(), st) == ClosingSpec(cfg, lib, old(State()), w, i, entering)
      decreases 1, 2
    {
      ghost var m := State();
      if |tagBufStack| == 0 {
        st := RenderNodeDefault(w, i, entering);
        return;
      }
      var tb := tagBufStack[|tagBufStack| - 1];
      if nodes[i].literal != tb.closingTag {
        st := RenderNodeDefault(w, i, entering);
        return;
      }
      assert tb.w == if |m.stack| == 1 then Root else Buf(|m.stack| - 2);
      tagBufStack := tagBufStack[..|tagBufStack| - 1];
      assert State() == m.(stack := m.stack[..|m.stack| - 1]);
      st := Close(tb);
    }

    /** htmlTagBuf.close: run the frame's closure on the writer it captured. */
    method Close(tb: Frame) returns (st: WalkStatus)
      requires ValidTarget(State(), tb.w)
      modifies this
      ensures State() == WriteTo(old(State()), tb.w, Finalize(cfg, tb)) && st == GoToNext
    {
      st := GoToNext;
      match tb.fn
      case HighlightWith(color) =>
        Write(tb.w, Highlight(tb.buf, color));
      case Bibliography =>
        Write(tb.w, BookBibliography(cfg.palette, GetTagAttr(tb.openingTag, "title"),
                                     GetTagAttr(tb.openingTag, "cover"), GetTagAttr(tb.openingTag, "link"),
                                     GetTagAttr(tb.openingTag, "author")));
    }
  }

  /** Renderer.Render: walk the events through the hooked renderer, then report the hook's error if any. */
  method Render(cfg: Config, lib: Library, nodes: array<Node>, events: seq<Event>)
      returns (html: string, err: Option<string>)
    requires forall e :: e in events ==> e.node < nodes.Length
    modifies nodes
    ensures (html, err) == RenderResult(cfg, lib, old(nodes[..]), events)
    ensures nodes[..] == Run(cfg, lib, Init(old(nodes[..])), events).0.nodes
  {
    var rh := new RenderHook(cfg, lib, nodes);
    ghost var m0 := rh.State();
    var k := 0;
    while k < |events|
      invariant 0 <= k <= |events| && rh.nodes == nodes
      invariant WellNested(rh.tagBufStack) && !rh.reentry
      invariant forall e :: e in events[k..] ==> e.node < nodes.Length
      invariant Run(cfg, lib, m0, events) == Run(cfg, lib, rh.State(), events[k..])
      decreases |events| - k
    {
      ghost var before := rh.State();
      var st := rh.RenderNode(Root, events[k].node, events[k].entering);
      RunStep(cfg, lib, before, events[k..], rh.State(), st);
      if st == Terminate {
        break;
      }
      assert events[k..][1..] == events[k + 1..];
      k := k + 1;
    }
    if rh.err.Some? {
      return [], rh.err;
    }
    return rh.out, None;
  }
}
