/**
 * gen/parser.go: walkMarkdownAST, the reference walk of the gen package.
 * The callback handles links, images and inline HTML (Refs.Visit with no
 * heading case); a library error from an HTML span ends the walk and is
 * returned instead of the references.
 */
module GenParser {
  import opened Ast
  import opened Refs

  /** What walkMarkdownAST returns for a tree whose walk produces `events`. */
  function WalkResult(env: Env, nodes: seq<Node>, events: seq<Event>): Result<seq<string>>
    requires ValidEvents(events, |nodes|)
  {
    var s := Walk(env, false, Start(nodes), events);
    if s.err.Some? then Err(s.err.value) else Ok(s.refs)
  }

  /** walkMarkdownAST: the walk with its callback, over the nodes rewritten in place. */
  method WalkMarkdownAST(env: Env, nodes: array<Node>, events: seq<Event>) returns (r: Result<seq<string>>)
    requires ValidEvents(events, nodes.Length)
    modifies nodes
    ensures r == WalkResult(env, old(nodes[..]), events)
    ensures nodes[..] == Walk(env, false, Start(old(nodes[..])), events).nodes
  {
    var refs: seq<string> := [];
    var walkErr: Option<string> := None;
    ghost var s0 := Start(nodes[..]);
    var k := 0;
    while k < |events|
      invariant 0 <= k <= |events|
      invariant ValidEvents(events[k..], nodes.Length)
      invariant Walk(env, false, s0, events) == Walk(env, false, State(nodes[..], refs, [], None), events[k..])
    {
      ghost var sk := State(nodes[..], refs, [], None);
      var e := events[k];
      assert events[k..][0] == e && events[k..][1..] == events[k + 1..];
      if e.entering {
        ghost var n0 := nodes[e.node];
        if n0.Heading? {
          HeadingIgnored(env, sk, e.node);
        } else {
          OtherVisit(env, false, sk, e.node);
        }
        var rs, err := VisitNode(env, nodes, e.node);
        if err.Some? {
          walkErr := err;
          WalkUnfold(env, false, sk, events[k..], State(nodes[..], refs, [], walkErr), Terminate);
          break;
        }
        ghost var v := NodeRefs(env, n0).value;
        assert n0 == sk.nodes[e.node];
        assert nodes[..] == sk.nodes[e.node := v.0] && rs == v.1;
        refs := refs + rs;
        if n0.Heading? {
          assert nodes[..] == sk.nodes && refs == sk.refs;
        }
      } else {
        LeavingIgnored(env, false, sk, e.node);
      }
      WalkUnfold(env, false, sk, events[k..], State(nodes[..], refs, [], None), GoToNext);
      k := k + 1;
    }
    if walkErr.Some? {
      return Err(walkErr.value);
    }
    assert events[k..] == [];
    r := Ok(refs);
  }

  /** The references come in walk order: each entered node's own references, read off the original tree. */
  lemma RefsInWalkOrder(env: Env, nodes: seq<Node>, events: seq<Event>)
    requires ValidEvents(events, |nodes|) && EnteredOnce(events)
    requires WalkResult(env, nodes, events).Ok?
    ensures WalkResult(env, nodes, events).value == EventRefs(env, nodes, events)
  {
    WalkCollects(env, false, Start(nodes), nodes, events);
  }

  /** A failing HTML span as the first entered node makes the walk return that error. */
  lemma SpanErrorReturned(env: Env, nodes: seq<Node>, events: seq<Event>, lit: string)
    requires ValidEvents(events, |nodes|) && events != [] && events[0].entering
    requires nodes[events[0].node] == HTMLSpan(lit) && WalkHtmlSpec(env, lit).Err?
    ensures WalkResult(env, nodes, events) == Err(WalkHtmlSpec(env, lit).error)
  {
  }
}
