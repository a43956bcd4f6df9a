/**
 * Values shared by the modules: Option and Result, and the part of the
 * gomarkdown AST that the site generator inspects. The gomarkdown parser,
 * its tree walk and its default HTML renderer are library code; the tree
 * walk is modelled as the sequence of (node, entering) events it delivers
 * and the default renderer as a function from a node to its output.
 */
module Ast {

  datatype Option<T> = None | Some(value: T)

  datatype Result<T> = Ok(value: T) | Err(error: string)

  /** ast.WalkStatus: what a visitor tells the walk to do next. */
  datatype WalkStatus = GoToNext | SkipChildren | Terminate

  /**
   * The node kinds the generator's hooks and callbacks distinguish; every
   * other kind is `Other`. A heading carries its own children because the
   * parser looks at them; the other containers' children are separate
   * nodes reached through the walk.
   */
  datatype Node =
    | Heading(level: int, children: seq<Node>)
    | Text(literal: string)
    | Link(destination: string)
    | Image(destination: string)
    | HTMLSpan(literal: string)
    | CodeBlock(literal: string)
    | Other(kind: string)

  /** One visit of the walk: the index of the node in the document's node table, and the direction. */
  datatype Event = Event(node: nat, entering: bool)
}
