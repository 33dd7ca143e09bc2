/**
  A recursive-descent reading of the event stream, independent of the frame
  stack: each Start reads its children up to the matching End and then builds
  its node.  The reducer is proved to produce exactly this tree, and the tree is
  proved to hold no Document below the root and none of the kinds no frame builds.
*/
module Descent {
  import opened Wrappers
  import opened Ast
  import opened Events
  import opened Parser

  /**
    The sibling nodes at the front of `events`, read up to the first End that
    is not matched inside them, and the events from that End on.
  */
  function Siblings(events: seq<Event>): (res: (seq<AstNode>, seq<Event>))
    ensures |res.1| <= |events|
    ensures res.1 == [] || res.1[0].End?
    decreases |events|
  {
    if events == [] then ([], [])
    else match events[0]
      case End => ([], events)
      case Start(tag) =>
        var (inner, after) := Siblings(events[1..]);
        var node := Build(TagToFrame(tag), inner).value;
        if after == [] then ([node], [])
        else
          var (more, rest) := Siblings(after[1..]);
          ([node] + more, rest)
      case Text(text) =>
        var (more, rest) := Siblings(events[1..]);
        ([AstNode.Text(text)] + more, rest)
      case Code(code) =>
        var (more, rest) := Siblings(events[1..]);
        ([AstNode.InlineCode(code)] + more, rest)
      case Other => Siblings(events[1..])
  }

  /** Reading rules of `Siblings`, one per kind of first event. */
  lemma ReadEnd(tail: seq<Event>)
    ensures Siblings([End] + tail) == ([], [End] + tail)
  {
  }

  lemma ReadLeaf(e: Event, tail: seq<Event>, nodes: seq<AstNode>, rest: seq<Event>, read: seq<AstNode>)
    requires e.Text? || e.Code? || e.Other?
    requires Siblings(tail) == (nodes, rest)
    requires read ==
      (if e.Text? then [AstNode.Text(e.text)] else if e.Code? then [AstNode.InlineCode(e.code)] else []) + nodes
    ensures Siblings([e] + tail) == (read, rest)
  {
    assert ([e] + tail)[1..] == tail;
    assert ([e] + tail)[0] == e;
    if e.Other? {
      assert read == nodes;
    }
  }

  lemma ReadStart(tag: Tag, tail: seq<Event>, inner: seq<AstNode>, after: seq<Event>,
                  more: seq<AstNode>, rest: seq<Event>, read: seq<AstNode>)
    requires Siblings(tail) == (inner, [End] + after)
    requires Siblings(after) == (more, rest)
    requires read == [Build(TagToFrame(tag), inner).value] + more
    ensures Siblings([Start(tag)] + tail) == (read, rest)
  {
    assert ([Start(tag)] + tail)[1..] == tail;
    assert ([End] + after)[1..] == after;
  }

  /** The stack with `nodes` appended to the children of its top frame. */
  function AppendChildren(stack: seq<StackItem>, nodes: seq<AstNode>): (r: seq<StackItem>)
    requires |stack| >= 1
  {
    var top := stack[|stack| - 1];
    stack[|stack| - 1 := top.(children := top.children + nodes)]
  }

  lemma AppendChildrenCons(stack: seq<StackItem>, n: AstNode, nodes: seq<AstNode>)
    requires |stack| >= 1
    ensures AppendChildren(AppendChild(stack, n), nodes) == AppendChildren(stack, [n] + nodes)
  {
    var top := stack[|stack| - 1];
    assert top.children + [n] + nodes == top.children + ([n] + nodes);
  }

  /**
    Reducing the siblings at the front of `events` only appends them to the
    top frame's children; the rest of the run continues from the End after them.
  */
  lemma {:induction false} RunReadsSiblings(stack: seq<StackItem>, events: seq<Event>)
    requires |stack| >= 1 && Balanced(events, |stack| - 1)
    ensures Balanced(Siblings(events).1, |stack| - 1)
    ensures Run(stack, events) == Run(AppendChildren(stack, Siblings(events).0), Siblings(events).1)
    decreases |events|, 1
  {
    var top := stack[|stack| - 1];
    if events == [] || events[0].End? {
      assert top.children + [] == top.children;
      assert AppendChildren(stack, []) == stack;
    } else if events[0].Start? {
      RunReadsConstruct(stack, events);
    } else {
      var e, tail := events[0], events[1..];
      assert Run(stack, events) == Run(Step(stack, e), tail);
      if e.Other? {
        RunReadsSiblings(stack, tail);
      } else {
        var leaf := if e.Text? then AstNode.Text(e.text) else AstNode.InlineCode(e.code);
        assert Step(stack, e) == AppendChild(stack, leaf);
        RunReadsSiblings(AppendChild(stack, leaf), tail);
        AppendChildrenCons(stack, leaf, Siblings(tail).0);
      }
    }
  }

  /** The Start case of `RunReadsSiblings`: a whole construct, then the siblings after it. */
  lemma {:induction false} RunReadsConstruct(stack: seq<StackItem>, events: seq<Event>)
    requires |stack| >= 1 && Balanced(events, |stack| - 1)
    requires events != [] && events[0].Start?
    ensures Balanced(Siblings(events).1, |stack| - 1)
    ensures Run(stack, events) == Run(AppendChildren(stack, Siblings(events).0), Siblings(events).1)
    decreases |events|, 0
  {
    var tail := events[1..];
    var frame := TagToFrame(events[0].tag);
    var pushed := stack + [StackItem(frame, [])];
    assert Run(stack, events) == Run(pushed, tail);
    var (inner, after) := Siblings(tail);
    RunReadsSiblings(pushed, tail);
    assert [] + inner == inner;
    var withInner := stack + [StackItem(frame, inner)];
    assert AppendChildren(pushed, inner) == withInner;
    var node := Build(frame, inner).value;
    var closed := AppendChild(stack, node);
    assert Step(withInner, End) == closed;
    assert Run(withInner, after) == Run(closed, after[1..]);
    var (more, rest) := Siblings(after[1..]);
    RunReadsSiblings(closed, after[1..]);
    AppendChildrenCons(stack, node, more);
  }

  /** The reducer builds the document a recursive-descent reading of the events gives. */
  lemma ParseIsDescent(events: seq<Event>)
    requires WellNested(events)
    ensures Siblings(events).1 == []
    ensures Parse(events) == AstNode.Document(Siblings(events).0)
  {
    RunReadsSiblings(InitialStack(), events);
  }

  /**
    `n` may stand below the root of a reduced tree and is at most `height`
    levels tall: at every depth it is no Document and none of the kinds no
    frame builds, and its headings have a level from 1 to 6.  (A bound on the
    height keeps the recursion well founded through the list items, which are
    sequences of sequences.)
  */
  predicate InnerWithin(n: AstNode, height: nat)
    decreases height
  {
    height > 0 &&
    match n
    case Heading(level, children) => 1 <= level <= 6 && forall c | c in children :: InnerWithin(c, height - 1)
    case Paragraph(children) => forall c | c in children :: InnerWithin(c, height - 1)
    case BlockQuote(children) => forall c | c in children :: InnerWithin(c, height - 1)
    case List(_, items) =>
      forall i, j | 0 <= i < |items| && 0 <= j < |items[i]| :: InnerWithin(items[i][j], height - 1)
    case ListItem(children) => forall c | c in children :: InnerWithin(c, height - 1)
    case CodeBlock(_, _) => true
    case Text(_) => true
    case Strong(children) => forall c | c in children :: InnerWithin(c, height - 1)
    case Emphasis(children) => forall c | c in children :: InnerWithin(c, height - 1)
    case InlineCode(_) => true
    case Link(_, children) => forall c | c in children :: InnerWithin(c, height - 1)
    case _ => false
  }

  /** A height bound can always be loosened. */
  lemma {:induction false} InnerWithinMonotone(n: AstNode, height: nat, height': nat)
    requires InnerWithin(n, height) && height <= height'
    ensures InnerWithin(n, height')
    decreases height
  {
    if n.List? {
      var items := n.items;
      forall i, j | 0 <= i < |items| && 0 <= j < |items[i]|
        ensures InnerWithin(items[i][j], height' - 1)
      {
        InnerWithinMonotone(items[i][j], height - 1, height' - 1);
      }
    } else if n.Heading? || n.Paragraph? || n.BlockQuote? || n.ListItem? || n.Strong? || n.Emphasis? || n.Link? {
      forall c | c in n.children
        ensures InnerWithin(c, height' - 1)
      {
        InnerWithinMonotone(c, height - 1, height' - 1);
      }
    }
  }

  /** Closing a construct opened by a Start event adds one level above its children. */
  lemma BuildFromTagIsInner(tag: Tag, children: seq<AstNode>, height: nat)
    requires forall c | c in children :: InnerWithin(c, height)
    ensures InnerWithin(Build(TagToFrame(tag), children).value, height + 1)
  {
    var frame := TagToFrame(tag);
    if frame.List? {
      var items := ListItems(children);
      forall i, j | 0 <= i < |items| && 0 <= j < |items[i]|
        ensures InnerWithin(items[i][j], height)
      {
        assert AstNode.ListItem(items[i]) in children;
        assert items[i][j] in items[i];
        InnerWithinMonotone(items[i][j], height - 1, height);
      }
    }
  }

  /** Every node read from `events` is an inner node no taller than the number of events, whatever the events. */
  lemma {:induction false} SiblingsAreInner(events: seq<Event>)
    ensures forall n | n in Siblings(events).0 :: InnerWithin(n, |events|)
    decreases |events|
  {
    if events != [] && !events[0].End? {
      var tail := events[1..];
      if events[0].Start? {
        var (inner, after) := Siblings(tail);
        SiblingsAreInner(tail);
        BuildFromTagIsInner(events[0].tag, inner, |tail|);
        if after != [] {
          var (more, rest) := Siblings(after[1..]);
          SiblingsAreInner(after[1..]);
          forall n | n in more
            ensures InnerWithin(n, |events|)
          {
            InnerWithinMonotone(n, |after[1..]|, |events|);
          }
        }
      } else {
        SiblingsAreInner(tail);
        forall n | n in Siblings(tail).0
          ensures InnerWithin(n, |events|)
        {
          InnerWithinMonotone(n, |tail|, |events|);
        }
      }
    }
  }

  /**
    The reduced tree has a Document at its root and nowhere else, contains no
    node of a kind no frame builds, and is no taller than the event stream is long.
  */
  lemma ParseShape(events: seq<Event>)
    requires WellNested(events)
    ensures Parse(events).Document?
    ensures forall n | n in Parse(events).children :: InnerWithin(n, |events|)
  {
    ParseIsDescent(events);
    SiblingsAreInner(events);
  }
}
