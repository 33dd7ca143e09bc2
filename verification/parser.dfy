/**
  The stack-based tree reducer (src/parser.rs).  A stack of frames, one per open
  construct, each with the children built for it so far, turns the flat event
  stream into a nested document tree.
*/
module Parser {
  import opened Wrappers
  import opened Ast
  import opened Events

  /** One open construct, waiting for its End event. */
  datatype Frame =
    | Root
    | Heading(level: uint8)
    | Paragraph
    | Emphasis
    | Strong
    | BlockQuote
    | List(ordered: bool)
    | ListItem
    | Link(url: string)
    | CodeBlock(language: Option<string>)

  /** A frame together with the children built for it so far. */
  datatype StackItem = StackItem(frame: Frame, children: seq<AstNode>)

  /** The frame a Start event opens.  Tags the reducer does not name open a Paragraph. */
  function TagToFrame(tag: Tag): (f: Frame)
    ensures f != Frame.Root
    ensures f.Heading? <==> tag.Heading?
    ensures f.Heading? ==> f.level == LevelNumber(tag.level) && 1 <= f.level <= 6
    ensures f.Paragraph? <==> tag.Paragraph? || tag.OtherTag?
    ensures f.Emphasis? <==> tag.Emphasis?
    ensures f.Strong? <==> tag.Strong?
    ensures f.BlockQuote? <==> tag.BlockQuote?
    ensures f.List? <==> tag.List?
    ensures f.List? ==> (f.ordered <==> tag.start.Some?)
    ensures f.ListItem? <==> tag.Item?
    ensures f.Link? <==> tag.Link?
    ensures f.Link? ==> f.url == tag.destUrl
    ensures f.CodeBlock? <==> tag.CodeBlock?
    ensures f.CodeBlock? ==> (f.language.Some? <==> tag.kind.Fenced?)
    ensures f.CodeBlock? && tag.kind.Fenced? ==> f.language == Some(tag.kind.lang)
  {
    match tag
    case Heading(level) => Frame.Heading(LevelNumber(level))
    case Paragraph => Frame.Paragraph
    case Emphasis => Frame.Emphasis
    case Strong => Frame.Strong
    case BlockQuote => Frame.BlockQuote
    case List(start) => Frame.List(start.Some?)
    case Item => Frame.ListItem
    case Link(destUrl) => Frame.Link(destUrl)
    case CodeBlock(kind) =>
      var lang := match kind
        case Fenced(l) => Some(l)
        case Indented => None;
      Frame.CodeBlock(lang)
    case OtherTag => Frame.Paragraph
  }

  /** The child list of every ListItem among `children`, in order; every other child is dropped. */
  function ListItems(children: seq<AstNode>): (items: seq<seq<AstNode>>)
    ensures |items| <= |children|
    ensures forall k :: 0 <= k < |items| ==> AstNode.ListItem(items[k]) in children
    ensures forall j :: 0 <= j < |children| && children[j].ListItem? ==> children[j].children in items
    decreases |children|
  {
    if children == [] then []
    else
      var init := children[..|children| - 1];
      var items := ListItems(init);
      assert forall j :: 0 <= j < |init| ==> init[j] == children[j];
      match children[|children| - 1]
      case ListItem(item) => items + [item]
      case _ => items
  }

  /** The values of the Text nodes among `children`, concatenated in order; every other child is dropped. */
  function CodeText(children: seq<AstNode>): (code: string)
    ensures code == [] <==> forall j :: 0 <= j < |children| && children[j].Text? ==> children[j].value == []
    decreases |children|
  {
    if children == [] then []
    else
      var init := children[..|children| - 1];
      var code := CodeText(init);
      assert forall j :: 0 <= j < |init| ==> init[j] == children[j];
      match children[|children| - 1]
      case Text(t) => code + t
      case _ => code
  }

  /** ListItems distributes over concatenation: items keep the order of the children they come from. */
  lemma {:induction false} ListItemsAppend(xs: seq<AstNode>, ys: seq<AstNode>)
    ensures ListItems(xs + ys) == ListItems(xs) + ListItems(ys)
    decreases |ys|
  {
    if ys == [] {
      assert xs + ys == xs;
    } else {
      var init := ys[..|ys| - 1];
      assert (xs + ys)[..|xs + ys| - 1] == xs + init;
      ListItemsAppend(xs, init);
    }
  }

  /** A child that is not a ListItem contributes nothing to the list's items. */
  lemma ListItemsDropsOthers(xs: seq<AstNode>, n: AstNode, ys: seq<AstNode>)
    requires !n.ListItem?
    ensures ListItems(xs + [n] + ys) == ListItems(xs + ys)
  {
    ListItemsAppend(xs + [n], ys);
    ListItemsAppend(xs, [n]);
    ListItemsAppend(xs, ys);
    assert [n][..0] == [];
  }

  /** The number of ListItem nodes among `children`. */
  function ItemCount(children: seq<AstNode>): nat
    decreases |children|
  {
    if children == [] then 0
    else (if children[0].ListItem? then 1 else 0) + ItemCount(children[1..])
  }

  /** A list has exactly one entry per ListItem child. */
  lemma {:induction false} ListItemsLength(children: seq<AstNode>)
    ensures |ListItems(children)| == ItemCount(children)
    decreases |children|
  {
    if children != [] {
      assert children == [children[0]] + children[1..];
      ListItemsAppend([children[0]], children[1..]);
      assert [children[0]][..0] == [];
      ListItemsLength(children[1..]);
    }
  }

  /** CodeText distributes over concatenation: text runs keep their order. */
  lemma {:induction false} CodeTextAppend(xs: seq<AstNode>, ys: seq<AstNode>)
    ensures CodeText(xs + ys) == CodeText(xs) + CodeText(ys)
    decreases |ys|
  {
    if ys == [] {
      assert xs + ys == xs;
    } else {
      var init, last := ys[..|ys| - 1], ys[|ys| - 1];
      assert (xs + ys)[..|xs + ys| - 1] == xs + init;
      assert (xs + ys)[|xs + ys| - 1] == last;
      CodeTextAppend(xs, init);
      if last.Text? {
        assert CodeText(ys) == CodeText(init) + last.value;
        assert CodeText(xs + ys) == CodeText(xs + init) + last.value;
      } else {
        assert CodeText(ys) == CodeText(init);
        assert CodeText(xs + ys) == CodeText(xs + init);
      }
    }
  }

  /** A child that is not Text contributes nothing to the code. */
  lemma CodeTextDropsOthers(xs: seq<AstNode>, n: AstNode, ys: seq<AstNode>)
    requires !n.Text?
    ensures CodeText(xs + [n] + ys) == CodeText(xs + ys)
  {
    CodeTextAppend(xs + [n], ys);
    CodeTextAppend(xs, [n]);
    CodeTextAppend(xs, ys);
    assert [n][..0] == [];
  }

  /** A Text child contributes its value verbatim, after the code of the children before it. */
  lemma CodeTextSnoc(xs: seq<AstNode>, t: string)
    ensures CodeText(xs + [AstNode.Text(t)]) == CodeText(xs) + t
  {
    assert (xs + [AstNode.Text(t)])[..|xs|] == xs;
  }

  /**
    The frame a node is built from, or None for the leaves and for the kinds no
    frame builds.  It inverts `Build`: the node's kind and its level, ordering,
    url or language identify the frame.
  */
  function FrameOf(n: AstNode): Option<Frame>
  {
    match n
    case Document(_) => Some(Frame.Root)
    case Heading(level, _) => Some(Frame.Heading(level))
    case Paragraph(_) => Some(Frame.Paragraph)
    case Emphasis(_) => Some(Frame.Emphasis)
    case Strong(_) => Some(Frame.Strong)
    case BlockQuote(_) => Some(Frame.BlockQuote)
    case List(ordered, _) => Some(Frame.List(ordered))
    case ListItem(_) => Some(Frame.ListItem)
    case Link(url, _) => Some(Frame.Link(url))
    case CodeBlock(language, _) => Some(Frame.CodeBlock(language))
    case _ => None
  }

  /** The node a closed frame turns into, given the children built for it. */
  function Build(frame: Frame, children: seq<AstNode>): (r: Option<AstNode>)
    ensures r.Some?
    ensures FrameOf(r.value) == Some(frame)
    ensures !frame.List? && !frame.CodeBlock? ==> r.value.children == children
    ensures frame.List? ==> |r.value.items| <= |children|
    ensures frame.List? ==> r.value.items == ListItems(children)
    ensures frame.CodeBlock? ==> r.value.code == CodeText(children)
  {
    match frame
    case Root => Some(AstNode.Document(children))
    case Heading(level) => Some(AstNode.Heading(level, children))
    case Paragraph => Some(AstNode.Paragraph(children))
    case Emphasis => Some(AstNode.Emphasis(children))
    case Strong => Some(AstNode.Strong(children))
    case BlockQuote => Some(AstNode.BlockQuote(children))
    case List(ordered) => Some(AstNode.List(ordered, ListItems(children)))
    case ListItem => Some(AstNode.ListItem(children))
    case Link(url) => Some(AstNode.Link(url, children))
    case CodeBlock(language) => Some(AstNode.CodeBlock(language, CodeText(children)))
  }

  /** No frame builds a Table, Image, HorizontalRule, Footnote or Html node. */
  lemma NeverBuilt(n: AstNode)
    requires n.Table? || n.Image? || n.HorizontalRule? || n.Footnote? || n.Html?
    ensures forall f, children :: Build(f, children) != Some(n)
  {
  }

  /** Builds the node for a closed frame, collecting list items and code text with loops. */
  method BuildNode(frame: Frame, children: seq<AstNode>) returns (r: Option<AstNode>)
    ensures r == Build(frame, children)
  {
    match frame
    case Root => r := Some(AstNode.Document(children));
    case Heading(level) => r := Some(AstNode.Heading(level, children));
    case Paragraph => r := Some(AstNode.Paragraph(children));
    case Emphasis => r := Some(AstNode.Emphasis(children));
    case Strong => r := Some(AstNode.Strong(children));
    case BlockQuote => r := Some(AstNode.BlockQuote(children));
    case List(ordered) =>
      var items := [];
      for i := 0 to |children|
        invariant items == ListItems(children[..i])
      {
        assert children[..i + 1][..i] == children[..i];
        if children[i].ListItem? {
          items := items + [children[i].children];
        }
      }
      assert children[..|children|] == children;
      r := Some(AstNode.List(ordered, items));
    case ListItem => r := Some(AstNode.ListItem(children));
    case Link(url) => r := Some(AstNode.Link(url, children));
    case CodeBlock(language) =>
      var code := "";
      for i := 0 to |children|
        invariant code == CodeText(children[..i])
      {
        assert children[..i + 1][..i] == children[..i];
        if children[i].Text? {
          code := code + children[i].value;
        }
      }
      assert children[..|children|] == children;
      r := Some(AstNode.CodeBlock(language, code));
  }

  /** The stack with `n` appended to the children of its top frame. */
  function AppendChild(stack: seq<StackItem>, n: AstNode): (r: seq<StackItem>)
    requires |stack| >= 1
  {
    var top := stack[|stack| - 1];
    stack[|stack| - 1 := top.(children := top.children + [n])]
  }

  /** What one event does to the stack. */
  function Step(stack: seq<StackItem>, e: Event): (r: seq<StackItem>)
    requires |stack| >= 1
    requires e.End? ==> |stack| >= 2
    ensures |r| == |stack| + Delta(e) && r[0].frame == stack[0].frame
    ensures e.Start? ==>
      r[..|stack|] == stack && r[|stack|].frame == TagToFrame(e.tag) && r[|stack|].children == []
    ensures e.End? ==>
      var top := stack[|stack| - 1];
      r[..|r| - 1] == stack[..|stack| - 2] &&
      r[|r| - 1].frame == stack[|stack| - 2].frame &&
      r[|r| - 1].children == stack[|stack| - 2].children + [Build(top.frame, top.children).value]
    ensures e.Text? || e.Code? ==>
      r[..|r| - 1] == stack[..|stack| - 1] &&
      r[|r| - 1].frame == stack[|stack| - 1].frame &&
      r[|r| - 1].children ==
        stack[|stack| - 1].children + [if e.Text? then AstNode.Text(e.text) else AstNode.InlineCode(e.code)]
    ensures e.Other? ==> r == stack
  {
    match e
    case Start(tag) => stack + [StackItem(TagToFrame(tag), [])]
    case End =>
      var top := stack[|stack| - 1];
      var below := stack[..|stack| - 1];
      (match Build(top.frame, top.children)
       case Some(n) => AppendChild(below, n)
       case None => below)
    case Text(text) => AppendChild(stack, AstNode.Text(text))
    case Code(code) => AppendChild(stack, AstNode.InlineCode(code))
    case Other => stack
  }

  /** The stack after all of `events`: only its bottom frame remains. */
  function Run(stack: seq<StackItem>, events: seq<Event>): (r: seq<StackItem>)
    requires |stack| >= 1 && Balanced(events, |stack| - 1)
    ensures |r| == 1 && r[0].frame == stack[0].frame
    decreases |events|
  {
    if events == [] then stack
    else Run(Step(stack, events[0]), events[1..])
  }

  /** The stack before the first event: the root frame with no children. */
  function InitialStack(): seq<StackItem>
  {
    [StackItem(Frame.Root, [])]
  }

  /** The document a well-nested event stream reduces to. */
  function Parse(events: seq<Event>): (doc: AstNode)
    requires WellNested(events)
    ensures doc.Document?
    ensures events == [] ==> doc == AstNode.Document([])
  {
    var root := Run(InitialStack(), events)[0];
    Build(root.frame, root.children).value
  }

  /** The reducer: one pass over the events with an explicit stack of open frames. */
  method ParseMarkdown(events: seq<Event>) returns (doc: AstNode)
    requires WellNested(events)
    ensures doc == Parse(events)
    ensures doc.Document?
  {
    var stack := InitialStack();
    for i := 0 to |events|
      invariant |stack| >= 1 && Balanced(events[i..], |stack| - 1)
      invariant Run(stack, events[i..]) == Run(InitialStack(), events)
    {
      assert events[i..][1..] == events[i + 1..];
      match events[i]
      case Start(tag) =>
        stack := stack + [StackItem(TagToFrame(tag), [])];
      case End =>
        var item := stack[|stack| - 1];
        stack := stack[..|stack| - 1];
        var built := BuildNode(item.frame, item.children);
        if built.Some? {
          var top := stack[|stack| - 1];
          stack := stack[|stack| - 1 := top.(children := top.children + [built.value])];
        }
      case Text(text) =>
        var top := stack[|stack| - 1];
        stack := stack[|stack| - 1 := top.(children := top.children + [AstNode.Text(text)])];
      case Code(code) =>
        var top := stack[|stack| - 1];
        stack := stack[|stack| - 1 := top.(children := top.children + [AstNode.InlineCode(code)])];
      case Other =>
    }
    var root := stack[|stack| - 1];
    stack := stack[..|stack| - 1];
    var built := BuildNode(root.frame, root.children);
    doc := built.value;
  }
}
