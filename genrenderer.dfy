/**
 * gen/renderer.go: the gen package's render hook. Only code blocks are
 * taken over (wrapped in a styled div around the default code-block
 * output); every other node is left to the default renderer. The hook's
 * error field is never assigned, so rendering a page cannot fail.
 */
module GenRenderer {
  import opened Ast
  import opened Strs

  /** The default html.Renderer: a node event's output, and the code-block printer. */
  datatype Lib = Lib(renderNode: (Node, bool) -> string, codeBlock: Node -> string)

  function CodeBlockOpen(style: string): string {
    "<div style=\"" + style + "\">"
  }

  const CodeBlockClose := "</div>"

  /** renderCodeBlock: what it writes, and its status (GoToNext, node handled). */
  function RenderCodeBlock(style: string, lib: Lib, n: Node): (r: (string, WalkStatus, bool))
    ensures HasPrefix(r.0, CodeBlockOpen(style)) && HasSuffix(r.0, CodeBlockClose)
    ensures |r.0| == |CodeBlockOpen(style)| + |lib.codeBlock(n)| + |CodeBlockClose|
    ensures r.0[|CodeBlockOpen(style)|..|r.0| - |CodeBlockClose|] == lib.codeBlock(n)
    ensures r.1 == GoToNext && r.2
  {
    var out := CodeBlockOpen(style) + lib.codeBlock(n) + CodeBlockClose;
    assert out[..|CodeBlockOpen(style)|] == CodeBlockOpen(style);
    assert out[|out| - |CodeBlockClose|..] == CodeBlockClose;
    assert out[|CodeBlockOpen(style)|..|out| - |CodeBlockClose|] == lib.codeBlock(n);
    (out, GoToNext, true)
  }

  /** render: the dispatch on the node's type. */
  function Render(style: string, lib: Lib, n: Node, entering: bool): (r: (string, WalkStatus, bool))
    ensures r.2 <==> n.CodeBlock?
    ensures r.1 == GoToNext
    ensures !r.2 ==> r.0 == ""
  {
    if n.CodeBlock? then RenderCodeBlock(style, lib, n) else ("", GoToNext, false)
  }

  /** One node event as the renderer emits it: the hook's output, or the default when the hook declines. */
  function EventHtml(style: string, lib: Lib, n: Node, entering: bool): string {
    var (out, _, handled) := Render(style, lib, n, entering);
    if handled then out else lib.renderNode(n, entering)
  }

  /** markdown.Render with the hook over a walk's events. */
  function PageHtml(style: string, lib: Lib, nodes: seq<Node>, events: seq<Event>): string
    requires forall k :: 0 <= k < |events| ==> events[k].node < |nodes|
    decreases |events|
  {
    if events == [] then ""
    else EventHtml(style, lib, nodes[events[0].node], events[0].entering) + PageHtml(style, lib, nodes, events[1..])
  }

  /** renderPage: the hook never records an error, so the result is always the page. */
  function RenderPage(style: string, lib: Lib, nodes: seq<Node>, events: seq<Event>): (r: Result<string>)
    requires forall k :: 0 <= k < |events| ==> events[k].node < |nodes|
    ensures r.Ok?
  {
    Ok(PageHtml(style, lib, nodes, events))
  }

  /** Every node other than a code block is printed exactly as the default renderer prints it. */
  lemma DefaultUnlessCodeBlock(style: string, lib: Lib, n: Node, entering: bool)
    ensures !n.CodeBlock? ==> EventHtml(style, lib, n, entering) == lib.renderNode(n, entering)
    ensures n.CodeBlock? ==>
      EventHtml(style, lib, n, entering) == CodeBlockOpen(style) + lib.codeBlock(n) + CodeBlockClose
  {
  }

  /** The page is the concatenation of its parts: rendering splits at any event boundary. */
  lemma {:induction false} PageSplit(style: string, lib: Lib, nodes: seq<Node>, a: seq<Event>, b: seq<Event>)
    requires forall k :: 0 <= k < |a| ==> a[k].node < |nodes|
    requires forall k :: 0 <= k < |b| ==> b[k].node < |nodes|
    ensures PageHtml(style, lib, nodes, a + b) == PageHtml(style, lib, nodes, a) + PageHtml(style, lib, nodes, b)
    decreases |a|
  {
    if a == [] {
      assert a + b == b;
    } else {
      assert (a + b)[1..] == a[1..] + b;
      PageSplit(style, lib, nodes, a[1..], b);
    }
  }
}
