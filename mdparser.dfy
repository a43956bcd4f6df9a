/**
 * gen/markdown/parser.go: buildMarkdownContent. The same reference walk as
 * the gen package's, plus the heading case, which feeds every heading with
 * a single Text child to the heading tracker; the tracker's tree becomes
 * the document's heading list.
 */
module MarkdownParser {
  import opened Ast
  import opened Refs
  import MH = MarkdownHeadings

  /** The parsed document's references and heading tree; the rewritten tree stays in the caller's nodes. */
  datatype Doc = Doc(refs: seq<string>, headings: seq<MH.Heading>)

  /** The tracker's queue after adding `adds` in order, with the tracker's invariant. */
  function QueueOf(adds: seq<MH.Entry>): (q: seq<seq<MH.Heading>>)
    requires LeveledAdds(adds)
    ensures MH.Tracks(q, adds)
  {
    if adds == [] then []
    else
      var prev, e := adds[..|adds| - 1], adds[|adds| - 1];
      LeveledPrefix(adds);
      var q := QueueOf(prev);
      TracksSnoc(q, prev, e, adds);
      MH.QueueAfterAdd(q, e.level, e.id, e.name)
  }

  lemma LeveledPrefix(adds: seq<MH.Entry>)
    requires adds != [] && LeveledAdds(adds)
    ensures LeveledAdds(adds[..|adds| - 1]) && adds[|adds| - 1].level >= 1
  {
    var prev := adds[..|adds| - 1];
    assert forall k :: 0 <= k < |prev| ==> prev[k] == adds[k];
  }

  lemma TracksSnoc(q: seq<seq<MH.Heading>>, prev: seq<MH.Entry>, e: MH.Entry, adds: seq<MH.Entry>)
    requires MH.Tracks(q, prev) && e.level >= 1 && adds == prev + [e]
    ensures MH.Tracks(MH.QueueAfterAdd(q, e.level, e.id, e.name), adds)
  {
    MH.AddKeepsTracks(q, prev, e.level, e.id, e.name);
    assert MH.Entry(e.level, e.id, e.name) == e;
  }

  /** What buildMarkdownContent returns for a tree whose walk produces `events`. */
  function BuildResult(env: Env, nodes: seq<Node>, events: seq<Event>): Result<Doc>
    requires ValidEvents(events, |nodes|) && Readable(nodes)
  {
    var s := Walk(env, true, Start(nodes), events);
    if s.err.Some? then Err(s.err.value) else Ok(Doc(s.refs, MH.Headings(QueueOf(s.adds))))
  }

  /** buildMarkdownContent: the walk with its callback, then getHeadings. */
  method BuildMarkdownContent(env: Env, nodes: array<Node>, events: seq<Event>) returns (r: Result<Doc>)
    requires ValidEvents(events, nodes.Length) && Readable(nodes[..])
    modifies nodes
    ensures r == BuildResult(env, old(nodes[..]), events)
    ensures nodes[..] == Walk(env, true, Start(old(nodes[..])), events).nodes
  {
    var refs: seq<string> := [];
    var walkErr: Option<string> := None;
    var ht := new MH.HeadingTracker();
    ghost var s0 := Start(nodes[..]);
    var k := 0;
    while k < |events|
      invariant 0 <= k <= |events|
      invariant ValidEvents(events[k..], nodes.Length) && Readable(nodes[..])
      invariant ht.Valid() && LeveledAdds(ht.added) && ht.queue == QueueOf(ht.added)
      invariant walkErr.None?
      invariant Walk(env, true, s0, events) == Walk(env, true, State(nodes[..], refs, ht.added, None), events[k..])
    {
      var e := events[k];
      assert events[k..][0] == e && events[k..][1..] == events[k + 1..];
      ghost var sk := State(nodes[..], refs, ht.added, None);
      var refs', err, st := Callback(env, nodes, ht, refs, e);
      WalkUnfold(env, true, sk, events[k..], State(nodes[..], refs', ht.added, err), st);
      if st == Terminate {
        walkErr := err;
        break;
      }
      refs := refs';
      k := k + 1;
    }
    if walkErr.Some? {
      return Err(walkErr.value);
    }
    assert events[k..] == [];
    var headings := ht.GetHeadings();
    r := Ok(Doc(refs, headings));
  }

  /**
   * The walk callback of buildMarkdownContent on one event: headings go to
   * the tracker, other nodes contribute their references, and an error is
   * recorded and stops the walk.
   */
  method Callback(env: Env, nodes: array<Node>, ht: MH.HeadingTracker, refs: seq<string>, e: Event)
      returns (refs': seq<string>, err: Option<string>, st: WalkStatus)
    requires e.node < nodes.Length && Readable(nodes[..])
    requires ht.Valid() && LeveledAdds(ht.added) && ht.queue == QueueOf(ht.added)
    modifies nodes, ht
    ensures ht.Valid() && LeveledAdds(ht.added) && ht.queue == QueueOf(ht.added)
    ensures err.Some? <==> st == Terminate
    ensures (State(nodes[..], refs', ht.added, err), st)
         == Visit(env, true, State(old(nodes[..]), refs, old(ht.added), None), e)
  {
    refs', err, st := refs, None, GoToNext;
    ghost var s := State(nodes[..], refs, ht.added, None);
    if !e.entering {
      LeavingIgnored(env, true, s, e.node);
      return;
    }
    var n := nodes[e.node];
    if n.Heading? {
      HeadingVisit(env, s, e.node);
      if |n.children| == 1 {
        QueueOfSnoc(ht.added, MH.Entry(n.level, "", n.children[0].literal));
        ht.Add(n.level, "", n.children[0].literal);
      }
      return;
    }
    OtherVisit(env, true, s, e.node);
    var rs, e' := VisitNode(env, nodes, e.node);
    if e'.Some? {
      return refs, e', Terminate;
    }
    refs' := refs + rs;
  }

  lemma QueueOfSnoc(adds: seq<MH.Entry>, e: MH.Entry)
    requires LeveledAdds(adds) && e.level >= 1
    ensures LeveledAdds(adds + [e])
    ensures QueueOf(adds + [e]) == MH.QueueAfterAdd(QueueOf(adds), e.level, e.id, e.name)
  {
    assert (adds + [e])[..|adds|] == adds;
  }

  /** The references come in walk order, each entered node contributing its own references. */
  lemma RefsInWalkOrder(env: Env, nodes: seq<Node>, events: seq<Event>)
    requires ValidEvents(events, |nodes|) && Readable(nodes) && EnteredOnce(events)
    requires BuildResult(env, nodes, events).Ok?
    ensures BuildResult(env, nodes, events).value.refs == EventRefs(env, nodes, events)
  {
    WalkCollects(env, true, Start(nodes), nodes, events);
  }

  /**
   * Every named heading of the document appears in the heading tree exactly
   * once, in document order (the tree's preorder, placeholders dropped).
   */
  lemma HeadingsInDocumentOrder(env: Env, nodes: seq<Node>, events: seq<Event>)
    requires ValidEvents(events, |nodes|) && Readable(nodes) && EnteredOnce(events)
    requires BuildResult(env, nodes, events).Ok?
    ensures MH.Named(MH.Pre(BuildResult(env, nodes, events).value.headings)) == MH.Named(EventHeadings(nodes, events))
  {
    var s := Walk(env, true, Start(nodes), events);
    WalkCollects(env, true, Start(nodes), nodes, events);
    assert s.adds == EventHeadings(nodes, events);
    var q := QueueOf(s.adds);
    MH.HeadingsPreorder(q);
    MH.ExpectedNamed(s.adds);
  }
}
