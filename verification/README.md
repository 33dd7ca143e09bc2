# Markdown tree reducer, modelled in Dafny

This project models the core of a Markdown-to-AST converter written in Rust:
the stack-based reducer that turns the flat, well-nested stream of markup
events coming out of a Markdown tokenizer into a nested document tree.

- `ast.dfy` (module `Ast`) transcribes the `AstNode` tagged union, every
  variant included. `Heading.level` is a `uint8` (Rust's `u8`): nothing in the
  type keeps it within 1..6. `List.items` is a sequence of child lists, and
  `CodeBlock` holds a language and one code string with no children.
- `events.dfy` (module `Events`) gives the tokenizer's output as data. It has
  `Tag`, `CodeBlockKind`, `HeadingLevel` and
  `Event = Start(Tag) | End | Text | Code | Other`, plus the nesting contract
  `WellNested`. That contract is proved equal to the counting reading: depth
  never negative on a prefix, and zero at the end.
- `parser.dfy` (module `Parser`) holds the reducer itself.
  - The `Frame` and `StackItem` types.
  - `TagToFrame`.
  - `Build`, the specification of `build_node`. The `BuildNode` method is
    `build_node`, with the loops that collect list items and code text.
  - `Step` and `Run` say what each event does to the stack of frames. `Parse`
    is the document the stack reduces to.
  - `ParseMarkdown` is `parse_markdown`: one `for` loop over the events that
    pushes, pops and appends on a local stack. It is proved to compute `Parse`.
- `descent.dfy` (module `Descent`) is an independent reference.
  - `Siblings` is a recursive-descent reading of the events, which builds
    each construct from the children read up to its matching End.
  - The reducer is proved to build exactly that tree.
  - The tree is proved to have a `Document` at its root and nowhere else. It
    contains no node of a kind no frame builds (Table, Image, HorizontalRule,
    Footnote, Html). Its headings have levels 1..6, and it is no taller than
    the event stream is long.
- `scenarios.dfy` (module `Scenarios`) works through concrete event streams:
  - `**a *b* c**`;
  - a fenced and an indented code block;
  - an unrecognised construct;
  - a list with a stray child.

Two facts about the code shape the model:

- `build_node`'s List and CodeBlock arms are loops, and so are they here.
- Heading levels are a `u8` that only the tokenizer's `HeadingLevel` keeps in
  1..6.

## Model

| member | source | states |
|---|---|---|
| `Events.BalancedIffDepth` | src/parser.rs:40-45 | The nesting contract that keeps every `pop()`/`last_mut()` from failing holds exactly when no prefix closes more constructs than it opened and the whole stream closes all it opened |
| `Events.LevelNumber` | src/parser.rs:73 | The `level as u8` cast of a tokenizer heading level is always in 1..6 |
| `Parser.TagToFrame` | src/parser.rs:71-102 | Never opens a Root frame. Each tag kind maps to its frame kind, both directions. Unrecognised tags give Paragraph. A list is ordered iff its start number is present. A heading's level is the tag's level 1..6. A link keeps its destination. Fenced(l) gives language Some(l) and Indented gives None |
| `Parser.ListItems` | src/parser.rs:117-125 | Every list entry is the child list of some ListItem child. Every ListItem child's children appear among the entries. There are no more entries than children |
| `Parser.ListItemsAppend` | src/parser.rs:119-123 | Collecting items distributes over concatenation of the children, so entries keep the order of the ListItem children they come from |
| `Parser.ListItemsDropsOthers` | src/parser.rs:120-122 | A child that is not a ListItem contributes nothing to the list |
| `Parser.ListItemsLength` | src/parser.rs:117-125 | The list has exactly as many entries as there are ListItem children |
| `Parser.CodeText` | src/parser.rs:131-139 | The code is empty iff every Text child has an empty value, so no Text children gives "" |
| `Parser.CodeTextAppend` | src/parser.rs:133-137 | Concatenating code text distributes over concatenation of the children, so text runs keep their order |
| `Parser.CodeTextSnoc` | src/parser.rs:135 | A Text child appends its value verbatim, after the code of the children before it |
| `Parser.CodeTextDropsOthers` | src/parser.rs:134-136 | A child that is not Text contributes nothing to the code |
| `Parser.Build` | src/parser.rs:104-141 | Total: always Some. The node's kind, level, ordering, url and language identify the frame it came from (inverse `FrameOf`). Every container arm other than List and CodeBlock passes the children through unchanged. A List's items are `ListItems(children)` and a CodeBlock's code is `CodeText(children)` |
| `Parser.NeverBuilt` | src/ast.rs:31-62 | No frame and no children build a Table, Image, HorizontalRule, Footnote or Html node |
| `Parser.BuildNode` | src/parser.rs:104-141 | The loops that collect list items and concatenate code text compute exactly `Build` |
| `Parser.Step` | src/parser.rs:32-64 | Start pushes one frame with no children and leaves the frames below unchanged. End pops the top, appends its built node to the new top and changes nothing else. Text and Code append one Text or InlineCode leaf to the top frame only. Any other event leaves the stack unchanged. The depth changes by +1, -1 or 0 and the bottom frame stays |
| `Parser.Run` | src/parser.rs:26-65 | After a stream that closes every open construct, exactly one frame is left: the bottom one |
| `Parser.Parse` | src/parser.rs:23-69 | The result is always a Document. An empty stream gives a Document with no children |
| `Parser.ParseMarkdown` | src/parser.rs:23-69 | The stack loop and the final pop of the root compute `Parse`, a Document |
| `Descent.RunReadsSiblings` | src/parser.rs:31-65 | Reducing the siblings at the front of the stream only appends them to the top frame's children, and leaves the stream's nesting intact |
| `Descent.RunReadsConstruct` | src/parser.rs:33-45 | A Start, the siblings inside it and its matching End append that construct's built node, followed by the siblings read after its End, to the enclosing frame |
| `Descent.ParseIsDescent` | src/parser.rs:23-69 | For every well-nested stream, the reducer's document holds exactly the nodes a recursive-descent reading of the events builds |
| `Descent.BuildFromTagIsInner` | src/parser.rs:71-141 | Closing a construct opened by a Start event never yields a Document or an unbuilt kind, and adds one level of height |
| `Descent.SiblingsAreInner` | src/parser.rs:31-65 | Every node read from any stream is Document-free, holds no unbuilt kind and no heading outside levels 1..6, and is no taller than the number of events |
| `Descent.ParseShape` | src/parser.rs:67-68 | The returned tree has a Document at its root and nowhere below it |
| `Scenarios.StrongWithNestedEmphasis` | src/parser.rs:31-65 | `**a *b* c**` gives Strong with children Text "a ", Emphasis [Text "b"], Text " c", in that order |
| `Scenarios.FencedCodeBlock` | src/parser.rs:131-139 | A fenced "rust" block with lines "a\n" and "b\n" gives language Some("rust") and code "a\nb\n" |
| `Scenarios.IndentedCodeBlock` | src/parser.rs:92-97 | An indented block gives language None, and inline code inside it is dropped |
| `Scenarios.UnknownTagIsParagraph` | src/parser.rs:100 | An unrecognised construct becomes a Paragraph wrapping its children |
| `Scenarios.ListDropsStrayChild` | src/parser.rs:117-125 | An ordered list with two items and stray text between them gives two entries, in order, with the stray text dropped |

## Left out

- The Markdown tokenizer (`pulldown_cmark::Parser`) is a foreign library. Its output is an input `seq<Event>` here, so `ParseMarkdown` takes events instead of the Markdown text.
- The tokenizer has many tags the reducer does not name. They are all `OtherTag`. Its other events (breaks, rules, raw HTML, footnote references, task markers) are all `Other`.
- The tag an End event carries is not modelled. The reducer ignores it.
- Rust's panics on `unwrap()` of an empty stack are not modelled as errors. The precondition `WellNested` (every Start closed by exactly one properly nested End) stands in for them. The reducer never reaches them under that precondition.
- `Parser.ParseMarkdown`: `WellNested` also excludes streams that leave constructs open, which do not panic in the code. For `[Start(Paragraph), Text("x")]` the final pop at src/parser.rs:67-68 takes the innermost open frame and returns `Paragraph([Text "x"])`, not a Document. The model does not cover such streams; the tokenizer never emits them.
- `Events.LevelNumber`: the heading level is the tokenizer enumeration's discriminant (1..6), as the `as u8` cast yields it.
- The list start number is `Option<nat>`, not `Option<u64>`. Only its presence is used.
- `to_string()` conversions are the identity on content. Rust's moves of the child vectors into the built node are plain value passing.
- The WASM export (src/lib.rs) and the serde serialisation of the tree are host-boundary glue and are not part of this model.
- Nesting is stated as equality with a recursive-descent reading (`Descent.ParseIsDescent`) plus a height bound (`Descent.SiblingsAreInner`). No separate depth function is stated.
- `Descent.InnerWithin` carries a height bound. Dafny cannot order a node below the list that holds it through `seq<seq<AstNode>>`, so the bound keeps the recursion well founded. The bound holds for every reduced tree, so nothing is lost.
