/**
 * The stand-alone frame stack of gen/markdown/htmltagstack.go. Each frame is
 * a heap object with a mutable buffer, the closing tag that ends it and the
 * function run when it is closed; the stack is a slice of frame pointers
 * that push appends to and pop truncates.
 */
module TagStack {
  import opened Ast

  class HtmlTag {
    /** The bytes.Buffer collecting the frame's content. */
    var buf: string
    const closingTag: string
    /** The close callback; it sees the frame, of which only the buffer can vary. */
    const closeFn: string -> WalkStatus

    constructor (closingTag: string, closeFn: string -> WalkStatus)
      ensures buf == [] && this.closingTag == closingTag && this.closeFn == closeFn
    {
      buf := [];
      this.closingTag := closingTag;
      this.closeFn := closeFn;
    }

    /** htmlTag.close: run the callback on this frame. */
    function Close(): (st: WalkStatus)
      reads this
      ensures st == closeFn(buf)
    {
      closeFn(buf)
    }
  }

  class HtmlTagStack {
    var stack: seq<HtmlTag>

    /** newHtmlTagStack. */
    constructor ()
      ensures stack == [] && Len() == 0 && Empty()
    {
      stack := [];
    }

    function Len(): (n: nat)
      reads this
      ensures n == |stack|
    {
      |stack|
    }

    predicate Empty()
      reads this
      ensures Empty() <==> stack == []
    {
      Len() == 0
    }

    /** The innermost frame; Go indexes out of range on an empty stack. */
    function Top(): (t: HtmlTag)
      requires !Empty()
      reads this
      ensures t == stack[Len() - 1] && t in stack
    {
      stack[Len() - 1]
    }

    method Push(closingTag: string, fn: string -> WalkStatus)
      modifies this
      ensures Len() == old(Len()) + 1 && stack[..old(Len())] == old(stack)
      ensures fresh(Top()) && Top().closingTag == closingTag && Top().buf == [] && Top().closeFn == fn
    {
      var t := new HtmlTag(closingTag, fn);
      stack := stack + [t];
    }

    /** Go slices `s.stack[:len-1]`, which panics on an empty stack. */
    method Pop()
      requires !Empty()
      modifies this
      ensures stack == old(stack[..|stack| - 1])
    {
      stack := stack[..|stack| - 1];
    }
  }

  /** Pushing a frame and popping it again leaves the stack as it was, whatever it held. */
  method PushPopRestores(s: HtmlTagStack, closingTag: string, fn: string -> WalkStatus)
    modifies s
    ensures s.stack == old(s.stack)
  {
    s.Push(closingTag, fn);
    s.Pop();
  }

  /** Frames come off in the reverse of the order they went on. */
  method LastInFirstOut(s: HtmlTagStack, c1: string, c2: string, fn: string -> WalkStatus)
    modifies s
    ensures s.stack == old(s.stack)
  {
    s.Push(c1, fn);
    var bottom := s.Top();
    s.Push(c2, fn);
    assert s.Top().closingTag == c2;
    s.Pop();
    assert s.Top() == bottom && s.Top().closingTag == c1;
    s.Pop();
  }
}
