/**
  The document tree handed to the renderer (src/ast.rs).  Every variant of the
  Rust enum is kept, including the ones the reducer never builds (Table, Image,
  HorizontalRule, Footnote, Html).
*/
module Ast {
  import opened Wrappers

  /** Rust's `u8`.  A heading level has this type; nothing in the type keeps it within 1..6. */
  type uint8 = x: int | 0 <= x < 0x100

  datatype AstNode =
    | Document(children: seq<AstNode>)
    | Heading(level: uint8, children: seq<AstNode>)
    | Paragraph(children: seq<AstNode>)
    | BlockQuote(children: seq<AstNode>)
      /** Each entry of `items` is the child list of one list item, not a ListItem node. */
    | List(ordered: bool, items: seq<seq<AstNode>>)
    | ListItem(children: seq<AstNode>)
      /** A code block has no children: only its optional language and its text. */
    | CodeBlock(language: Option<string>, code: string)
    | Table(headers: seq<AstNode>, rows: seq<seq<AstNode>>)
    | Text(value: string)
    | Strong(children: seq<AstNode>)
    | Emphasis(children: seq<AstNode>)
    | InlineCode(value: string)
    | Link(url: string, children: seq<AstNode>)
    | Image(url: string, alt: Option<string>)
    | HorizontalRule
    | Footnote(name: string, children: seq<AstNode>)
    | Html(value: string)
}
