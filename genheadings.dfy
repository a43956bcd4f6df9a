/**
 * The heading tracker of gen/headingtracker.go: the same algorithm as
 * gen/markdown/headingtracker.go, on headings without an ID. A gen `heading`
 * is a MarkdownHeadings.Heading whose id is "", so the specification
 * functions and lemmas of MarkdownHeadings describe this tracker too.
 */
module GenHeadings {
  import opened MarkdownHeadings

  class HeadingTracker {
    var queue: seq<seq<Heading>>
    /** The headings added so far, in order. */
    ghost var added: seq<Entry>

    ghost predicate Valid()
      reads this
    {
      Tracks(queue, added)
    }

    /** newHeadingTracker. */
    constructor ()
      ensures Valid() && queue == [] && added == []
    {
      queue := [];
      added := [];
    }

    /** headingTracker.add(level, name); the debug print is not modelled. */
    method Add(level: int, name: string)
      requires Valid() && level >= 1
      modifies this
      ensures Valid()
      ensures queue == QueueAfterAdd(old(queue), level, "", name)
      ensures added == old(added) + [Entry(level, "", name)]
    {
      ghost var q0, a0 := queue, added;
      var q := Enqueue(queue, level, "", name);
      ghost var e := Entry(level, "", name);
      AddKeepsTracks(q0, a0, level, "", name);
      queue := q;
      added := a0 + [e];
    }

    /**
     * headingTracker.getHeadings, as written: the source returns queue[0] of
     * the trimmed queue, so some list must survive the trim.
     */
    method GetHeadings() returns (hs: seq<Heading>)
      requires Valid() && FirstReal(queue, 0) < |queue|
      modifies this
      ensures hs == HeadingsAsWritten(old(queue))
      ensures Named(Pre(hs)) == Named(added)
      ensures Forest(hs, FirstReal(old(queue), 0) + 1)
      ensures queue == Collapsed(old(queue)[FirstReal(old(queue), 0)..])
    {
      ghost var q0, a0 := queue, added;
      var q: seq<seq<Heading>> := queue;
      var idx := 0;
      while idx < |q|
        invariant 0 <= idx <= FirstReal(q0, 0) && q == q0
      {
        if |q[idx]| > 1 || q[idx][0].name != "" {
          break;
        }
        idx := idx + 1;
      }
      assert idx == FirstReal(q0, 0);
      if idx > 0 {
        q := q[idx..];
      }
      assert q == q0[idx..];
      HeadingsPreorder(q0);
      HeadingsLeveled(q0);
      ExpectedNamed(a0);
      q := Collapse(q);
      queue := q;
      hs := q[0];
      assert hs == Nest(q0[idx..]) == HeadingsAsWritten(q0);
    }
  }
}

/** The nested-list test of gen/headingtracker_test.go, replayed on the model. */
module GenHeadingScenarios {
  import opened MarkdownHeadings
  import opened HeadingScenarios

  // The queues of the nested test, after each of its fourteen adds.
  const NH23 := Heading(2, "", "heading2.3", [Leaf(3, "heading2.3.1"), Leaf(3, "heading2.3.2")])
  const NH2 := Heading(1, "", "heading2", [Leaf(2, "heading2.1"), Leaf(2, "heading2.2"), NH23])
  const NH31 := Heading(2, "", "heading3.1", [Leaf(3, "heading3.1.1"), Leaf(3, "heading3.1.2")])
  const NH32 := Heading(2, "", "heading3.2", [Leaf(3, "heading3.2.1")])
  const NH3 := Heading(1, "", "heading3", [NH31, NH32, Leaf(2, "heading3.3")])
  const NTop: seq<Heading> := [Leaf(1, "heading1"), NH2, Leaf(1, "heading3")]
  const Nested1: seq<seq<Heading>> := [[Leaf(1, "heading1")]]
  const Nested2: seq<seq<Heading>> := [[Leaf(1, "heading1"), Leaf(1, "heading2")]]
  const Nested3: seq<seq<Heading>> := [[Leaf(1, "heading1"), Leaf(1, "heading2")], [Leaf(2, "heading2.1")]]
  const Nested4: seq<seq<Heading>> := [[Leaf(1, "heading1"), Leaf(1, "heading2")], [Leaf(2, "heading2.1"), Leaf(2, "heading2.2")]]
  const Nested5: seq<seq<Heading>> := [[Leaf(1, "heading1"), Leaf(1, "heading2")],
    [Leaf(2, "heading2.1"), Leaf(2, "heading2.2"), Leaf(2, "heading2.3")]]
  const Nested6: seq<seq<Heading>> := Nested5 + [[Leaf(3, "heading2.3.1")]]
  const Nested7: seq<seq<Heading>> := Nested5 + [[Leaf(3, "heading2.3.1"), Leaf(3, "heading2.3.2")]]
  const Nested8: seq<seq<Heading>> := [NTop]
  const Nested9: seq<seq<Heading>> := [NTop, [Leaf(2, "heading3.1")]]
  const Nested10: seq<seq<Heading>> := [NTop, [Leaf(2, "heading3.1")], [Leaf(3, "heading3.1.1")]]
  const Nested11: seq<seq<Heading>> := [NTop, [Leaf(2, "heading3.1")], [Leaf(3, "heading3.1.1"), Leaf(3, "heading3.1.2")]]
  const Nested12: seq<seq<Heading>> := [NTop, [NH31, Leaf(2, "heading3.2")]]
  const Nested13: seq<seq<Heading>> := [NTop, [NH31, Leaf(2, "heading3.2")], [Leaf(3, "heading3.2.1")]]
  const Nested14: seq<seq<Heading>> := [NTop, [NH31, NH32, Leaf(2, "heading3.3")]]

  lemma NestedStep1()
    ensures QueueAfterAdd([], 1, "", "heading1") == Nested1
  {
    FirstAdd(1, "", "heading1");
  }

  lemma NestedStep2()
    requires Shaped(Nested1)
    ensures QueueAfterAdd(Nested1, 1, "", "heading2") == Nested2
  {
    var q := Nested1;
    SameLevelAdd(q, 1, "", "heading2");
    assert q[..0] == [];
    assert q[0] + [Leaf(1, "heading2")] == [Leaf(1, "heading1"), Leaf(1, "heading2")];
  }

  lemma NestedStep3()
    requires Shaped(Nested2)
    ensures QueueAfterAdd(Nested2, 2, "", "heading2.1") == Nested3
  {
    var q := Nested2;
    DeeperAdd(q, 2, "", "heading2.1");
    var r := QueueAfterAdd(q, 2, "", "heading2.1");
    assert r == r[..1] + [r[1]];
  }

  lemma NestedStep4()
    requires Shaped(Nested3)
    ensures QueueAfterAdd(Nested3, 2, "", "heading2.2") == Nested4
  {
    var q := Nested3;
    SameLevelAdd(q, 2, "", "heading2.2");
    assert q[..1] == [[Leaf(1, "heading1"), Leaf(1, "heading2")]];
    assert q[1] + [Leaf(2, "heading2.2")] == [Leaf(2, "heading2.1"), Leaf(2, "heading2.2")];
  }

  lemma NestedStep5()
    requires Shaped(Nested4)
    ensures QueueAfterAdd(Nested4, 2, "", "heading2.3") == Nested5
  {
    var q := Nested4;
    SameLevelAdd(q, 2, "", "heading2.3");
    assert q[..1] == [[Leaf(1, "heading1"), Leaf(1, "heading2")]];
    assert q[1] + [Leaf(2, "heading2.3")] == [Leaf(2, "heading2.1"), Leaf(2, "heading2.2"), Leaf(2, "heading2.3")];
  }

  lemma NestedStep6()
    requires Shaped(Nested5)
    ensures QueueAfterAdd(Nested5, 3, "", "heading2.3.1") == Nested6
  {
    var q := Nested5;
    DeeperAdd(q, 3, "", "heading2.3.1");
    var r := QueueAfterAdd(q, 3, "", "heading2.3.1");
    assert r == r[..2] + [r[2]];
  }

  lemma NestedStep7()
    requires Shaped(Nested6)
    ensures QueueAfterAdd(Nested6, 3, "", "heading2.3.2") == Nested7
  {
    var q := Nested6;
    SameLevelAdd(q, 3, "", "heading2.3.2");
    assert q[..2] == Nested5;
    assert q[2] + [Leaf(3, "heading2.3.2")] == [Leaf(3, "heading2.3.1"), Leaf(3, "heading2.3.2")];
  }

  lemma NestedStep8()
    requires Shaped(Nested7)
    ensures QueueAfterAdd(Nested7, 1, "", "heading3") == Nested8
  {
    var q := Nested7;
    ShallowerAdd(q, 1, "", "heading3");
    assert q[2..] == [q[2]];
    assert q[1..][1..] == q[2..];
    assert Nest(q[1..]) == [Leaf(2, "heading2.1"), Leaf(2, "heading2.2"), NH23];
    assert AttachLast(q[0], Nest(q[1..])) + [Leaf(1, "heading3")] == NTop;
    var r := QueueAfterAdd(q, 1, "", "heading3");
    assert r == r[..0] + [r[0]];
  }

  lemma NestedStep9()
    requires Shaped(Nested8)
    ensures QueueAfterAdd(Nested8, 2, "", "heading3.1") == Nested9
  {
    var q := Nested8;
    DeeperAdd(q, 2, "", "heading3.1");
    var r := QueueAfterAdd(q, 2, "", "heading3.1");
    assert r == r[..1] + [r[1]];
  }

  lemma NestedStep10()
    requires Shaped(Nested9)
    ensures QueueAfterAdd(Nested9, 3, "", "heading3.1.1") == Nested10
  {
    var q := Nested9;
    DeeperAdd(q, 3, "", "heading3.1.1");
    var r := QueueAfterAdd(q, 3, "", "heading3.1.1");
    assert r == r[..2] + [r[2]];
  }

  lemma NestedStep11()
    requires Shaped(Nested10)
    ensures QueueAfterAdd(Nested10, 3, "", "heading3.1.2") == Nested11
  {
    var q := Nested10;
    SameLevelAdd(q, 3, "", "heading3.1.2");
    assert q[..2] == [NTop, [Leaf(2, "heading3.1")]];
    assert q[2] + [Leaf(3, "heading3.1.2")] == [Leaf(3, "heading3.1.1"), Leaf(3, "heading3.1.2")];
  }

  lemma NestedStep12()
    requires Shaped(Nested11)
    ensures QueueAfterAdd(Nested11, 2, "", "heading3.2") == Nested12
  {
    var q := Nested11;
    ShallowerAdd(q, 2, "", "heading3.2");
    assert q[2..] == [q[2]];
    assert AttachLast(q[1], Nest(q[2..])) + [Leaf(2, "heading3.2")] == [NH31, Leaf(2, "heading3.2")];
    var r := QueueAfterAdd(q, 2, "", "heading3.2");
    assert r == r[..1] + [r[1]];
    assert q[..1] == [NTop];
  }

  lemma NestedStep13()
    requires Shaped(Nested12)
    ensures QueueAfterAdd(Nested12, 3, "", "heading3.2.1") == Nested13
  {
    var q := Nested12;
    DeeperAdd(q, 3, "", "heading3.2.1");
    var r := QueueAfterAdd(q, 3, "", "heading3.2.1");
    assert r == r[..2] + [r[2]];
  }

  lemma NestedStep14()
    requires Shaped(Nested13)
    ensures QueueAfterAdd(Nested13, 2, "", "heading3.3") == Nested14
  {
    var q := Nested13;
    ShallowerAdd(q, 2, "", "heading3.3");
    assert q[2..] == [q[2]];
    assert AttachLast(q[1], Nest(q[2..])) + [Leaf(2, "heading3.3")] == [NH31, NH32, Leaf(2, "heading3.3")];
    var r := QueueAfterAdd(q, 2, "", "heading3.3");
    assert r == r[..1] + [r[1]];
    assert q[..1] == [NTop];
  }

  lemma NestedFinal()
    ensures Headings(Nested14) == [Leaf(1, "heading1"), NH2, NH3]
  {
    var q := Nested14;
    assert FirstReal(q, 0) == 0;
    assert q[0..] == q;
    assert q[1..] == [q[1]];
    assert q[0..][1..] == q[1..];
    assert Nest(q[0..]) == [Leaf(1, "heading1"), NH2, NH3];
  }

  /** The nested-list test: three top-level headings with 0, 3 and 3 children. */
  lemma NestedList()
    ensures
      var q1 := QueueAfterAdd([], 1, "", "heading1");
      var q2 := QueueAfterAdd(q1, 1, "", "heading2");
      var q3 := QueueAfterAdd(q2, 2, "", "heading2.1");
      var q4 := QueueAfterAdd(q3, 2, "", "heading2.2");
      var q5 := QueueAfterAdd(q4, 2, "", "heading2.3");
      var q6 := QueueAfterAdd(q5, 3, "", "heading2.3.1");
      var q7 := QueueAfterAdd(q6, 3, "", "heading2.3.2");
      var q8 := QueueAfterAdd(q7, 1, "", "heading3");
      var q9 := QueueAfterAdd(q8, 2, "", "heading3.1");
      var q10 := QueueAfterAdd(q9, 3, "", "heading3.1.1");
      var q11 := QueueAfterAdd(q10, 3, "", "heading3.1.2");
      var q12 := QueueAfterAdd(q11, 2, "", "heading3.2");
      var q13 := QueueAfterAdd(q12, 3, "", "heading3.2.1");
      var q14 := QueueAfterAdd(q13, 2, "", "heading3.3");
      Headings(q14) == [
        Leaf(1, "heading1"),
        Heading(1, "", "heading2", [
          Leaf(2, "heading2.1"),
          Leaf(2, "heading2.2"),
          Heading(2, "", "heading2.3", [Leaf(3, "heading2.3.1"), Leaf(3, "heading2.3.2")])]),
        Heading(1, "", "heading3", [
          Heading(2, "", "heading3.1", [Leaf(3, "heading3.1.1"), Leaf(3, "heading3.1.2")]),
          Heading(2, "", "heading3.2", [Leaf(3, "heading3.2.1")]),
          Leaf(2, "heading3.3")])]
  {
    NestedStep1();
    NestedStep2();
    NestedStep3();
    NestedStep4();
    NestedStep5();
    NestedStep6();
    NestedStep7();
    NestedStep8();
    NestedStep9();
    NestedStep10();
    NestedStep11();
    NestedStep12();
    NestedStep13();
    NestedStep14();
    NestedFinal();
  }
}
