/** Worked event streams and the documents they reduce to. */
module Scenarios {
  import opened Wrappers
  import opened Ast
  import opened Events
  import opened Parser
  import opened Descent

  /** `**a *b* c**`: strong text with emphasis nested in the middle, inside a paragraph. */
  lemma StrongWithNestedEmphasis()
    ensures
      var events := [Start(Tag.Paragraph), Start(Tag.Strong), Event.Text("a "),
                     Start(Tag.Emphasis), Event.Text("b"), End, Event.Text(" c"), End, End];
      WellNested(events) &&
      Parse(events) == AstNode.Document([AstNode.Paragraph([AstNode.Strong(
        [AstNode.Text("a "), AstNode.Emphasis([AstNode.Text("b")]), AstNode.Text(" c")])])])
  {
    var e9: seq<Event> := [];
    var e8 := [End] + e9;
    var e7 := [End] + e8;
    var e6 := [Event.Text(" c")] + e7;
    var e5 := [End] + e6;
    var e4 := [Event.Text("b")] + e5;
    var e3 := [Start(Tag.Emphasis)] + e4;
    var e2 := [Event.Text("a ")] + e3;
    var e1 := [Start(Tag.Strong)] + e2;
    var events := [Start(Tag.Paragraph)] + e1;
    var emphasis := AstNode.Emphasis([AstNode.Text("b")]);
    var strong := AstNode.Strong([AstNode.Text("a "), emphasis, AstNode.Text(" c")]);
    assert Siblings(events) == ([AstNode.Paragraph([strong])], []) by {
      ReadEnd(e9);
      ReadEnd(e8);
      ReadLeaf(Event.Text(" c"), e7, [], e7, [AstNode.Text(" c")]);
      ReadEnd(e6);
      ReadLeaf(Event.Text("b"), e5, [], e5, [AstNode.Text("b")]);
      ReadStart(Tag.Emphasis, e4, [AstNode.Text("b")], e6, [AstNode.Text(" c")], e7, [emphasis, AstNode.Text(" c")]);
      ReadLeaf(Event.Text("a "), e3, [emphasis, AstNode.Text(" c")], e7, [AstNode.Text("a "), emphasis, AstNode.Text(" c")]);
      ReadStart(Tag.Strong, e2, [AstNode.Text("a "), emphasis, AstNode.Text(" c")], e8, [], e8, [strong]);
      ReadStart(Tag.Paragraph, e1, [strong], e9, [], [], [AstNode.Paragraph([strong])]);
    }
    assert WellNested(events) by {
      BalancedCons(End, e9, 1);
      BalancedCons(End, e8, 2);
      BalancedCons(Event.Text(" c"), e7, 2);
      BalancedCons(End, e6, 3);
      BalancedCons(Event.Text("b"), e5, 3);
      BalancedCons(Start(Tag.Emphasis), e4, 2);
      BalancedCons(Event.Text("a "), e3, 2);
      BalancedCons(Start(Tag.Strong), e2, 1);
      BalancedCons(Start(Tag.Paragraph), e1, 0);
    }
    assert events == [Start(Tag.Paragraph), Start(Tag.Strong), Event.Text("a "),
                      Start(Tag.Emphasis), Event.Text("b"), End, Event.Text(" c"), End, End];
    ParseIsDescent(events);
  }

  /** A fenced block tagged `rust` with two lines keeps the tag and joins the lines. */
  lemma FencedCodeBlock()
    ensures
      var events := [Start(Tag.CodeBlock(Fenced("rust"))), Event.Text("a\n"), Event.Text("b\n"), End];
      WellNested(events) &&
      Parse(events) == AstNode.Document([AstNode.CodeBlock(Some("rust"), "a\nb\n")])
  {
    var e4: seq<Event> := [];
    var e3 := [End] + e4;
    var e2 := [Event.Text("b\n")] + e3;
    var e1 := [Event.Text("a\n")] + e2;
    var events := [Start(Tag.CodeBlock(Fenced("rust")))] + e1;
    var lines := [AstNode.Text("a\n"), AstNode.Text("b\n")];
    assert Siblings(events) == ([AstNode.CodeBlock(Some("rust"), "a\nb\n")], []) by {
      ReadEnd(e4);
      ReadLeaf(Event.Text("b\n"), e3, [], e3, [AstNode.Text("b\n")]);
      ReadLeaf(Event.Text("a\n"), e2, [AstNode.Text("b\n")], e3, [AstNode.Text("a\n"), AstNode.Text("b\n")]);
      assert lines[..1][..0] == [] && lines[..1] == [lines[0]];
      assert CodeText(lines) == "a\nb\n";
      ReadStart(Tag.CodeBlock(Fenced("rust")), e1, lines, e4, [], [], [AstNode.CodeBlock(Some("rust"), "a\nb\n")]);
    }
    assert WellNested(events) by {
      BalancedCons(End, e4, 1);
      BalancedCons(Event.Text("b\n"), e3, 1);
      BalancedCons(Event.Text("a\n"), e2, 1);
      BalancedCons(Start(Tag.CodeBlock(Fenced("rust"))), e1, 0);
    }
    assert events == [Start(Tag.CodeBlock(Fenced("rust"))), Event.Text("a\n"), Event.Text("b\n"), End];
    ParseIsDescent(events);
  }

  /** An indented block has no language; inline code inside it is dropped. */
  lemma IndentedCodeBlock()
    ensures
      var events := [Start(Tag.CodeBlock(Indented)), Event.Text("x"), Event.Code("y"), End];
      WellNested(events) &&
      Parse(events) == AstNode.Document([AstNode.CodeBlock(None, "x")])
  {
    var e4: seq<Event> := [];
    var e3 := [End] + e4;
    var e2 := [Event.Code("y")] + e3;
    var e1 := [Event.Text("x")] + e2;
    var events := [Start(Tag.CodeBlock(Indented))] + e1;
    var children := [AstNode.Text("x"), AstNode.InlineCode("y")];
    assert Siblings(events) == ([AstNode.CodeBlock(None, "x")], []) by {
      ReadEnd(e4);
      ReadLeaf(Event.Code("y"), e3, [], e3, [AstNode.InlineCode("y")]);
      ReadLeaf(Event.Text("x"), e2, [AstNode.InlineCode("y")], e3, [AstNode.Text("x"), AstNode.InlineCode("y")]);
      assert children[..1][..0] == [] && children[..1] == [children[0]];
      assert CodeText(children) == "x";
      ReadStart(Tag.CodeBlock(Indented), e1, children, e4, [], [], [AstNode.CodeBlock(None, "x")]);
    }
    assert WellNested(events) by {
      BalancedCons(End, e4, 1);
      BalancedCons(Event.Code("y"), e3, 1);
      BalancedCons(Event.Text("x"), e2, 1);
      BalancedCons(Start(Tag.CodeBlock(Indented)), e1, 0);
    }
    assert events == [Start(Tag.CodeBlock(Indented)), Event.Text("x"), Event.Code("y"), End];
    ParseIsDescent(events);
  }

  /** A construct the reducer does not name becomes a paragraph around its children. */
  lemma UnknownTagIsParagraph()
    ensures
      var events := [Start(OtherTag), Event.Text("x"), Other, End];
      WellNested(events) &&
      Parse(events) == AstNode.Document([AstNode.Paragraph([AstNode.Text("x")])])
  {
    var e4: seq<Event> := [];
    var e3 := [End] + e4;
    var e2 := [Other] + e3;
    var e1 := [Event.Text("x")] + e2;
    var events := [Start(OtherTag)] + e1;
    assert Siblings(events) == ([AstNode.Paragraph([AstNode.Text("x")])], []) by {
      ReadEnd(e4);
      ReadLeaf(Other, e3, [], e3, []);
      ReadLeaf(Event.Text("x"), e2, [], e3, [AstNode.Text("x")]);
      ReadStart(OtherTag, e1, [AstNode.Text("x")], e4, [], [], [AstNode.Paragraph([AstNode.Text("x")])]);
    }
    assert WellNested(events) by {
      BalancedCons(End, e4, 1);
      BalancedCons(Other, e3, 1);
      BalancedCons(Event.Text("x"), e2, 1);
      BalancedCons(Start(OtherTag), e1, 0);
    }
    assert events == [Start(OtherTag), Event.Text("x"), Other, End];
    ParseIsDescent(events);
  }

  /** An ordered list keeps the children of its two items and drops the stray text between them. */
  lemma ListDropsStrayChild()
    ensures
      var events := [Start(Tag.List(Some(1))), Start(Item), Event.Text("a"), End,
                     Event.Text("stray"), Start(Item), End, End];
      WellNested(events) &&
      Parse(events) == AstNode.Document([AstNode.List(true, [[AstNode.Text("a")], []])])
  {
    var e8: seq<Event> := [];
    var e7 := [End] + e8;
    var e6 := [End] + e7;
    var e5 := [Start(Item)] + e6;
    var e4 := [Event.Text("stray")] + e5;
    var e3 := [End] + e4;
    var e2 := [Event.Text("a")] + e3;
    var e1 := [Start(Item)] + e2;
    var events := [Start(Tag.List(Some(1)))] + e1;
    var children := [AstNode.ListItem([AstNode.Text("a")]), AstNode.Text("stray"), AstNode.ListItem([])];
    assert Siblings(events) == ([AstNode.List(true, [[AstNode.Text("a")], []])], []) by {
      ReadEnd(e8);
      ReadEnd(e7);
      ReadStart(Item, e6, [], e7, [], e7, [AstNode.ListItem([])]);
      ReadLeaf(Event.Text("stray"), e5, [AstNode.ListItem([])], e7, [AstNode.Text("stray"), AstNode.ListItem([])]);
      ReadEnd(e4);
      ReadLeaf(Event.Text("a"), e3, [], e3, [AstNode.Text("a")]);
      ReadStart(Item, e2, [AstNode.Text("a")], e4, [AstNode.Text("stray"), AstNode.ListItem([])], e7, children);
      assert children[..2][..1] == [children[0]] && children[..2][..1][..0] == [];
      assert ListItems(children) == [[AstNode.Text("a")], []];
      ReadStart(Tag.List(Some(1)), e1, children, e8, [], [], [AstNode.List(true, [[AstNode.Text("a")], []])]);
    }
    assert WellNested(events) by {
      BalancedCons(End, e8, 1);
      BalancedCons(End, e7, 2);
      BalancedCons(Start(Item), e6, 1);
      BalancedCons(Event.Text("stray"), e5, 1);
      BalancedCons(End, e4, 2);
      BalancedCons(Event.Text("a"), e3, 2);
      BalancedCons(Start(Item), e2, 1);
      BalancedCons(Start(Tag.List(Some(1))), e1, 0);
    }
    assert events == [Start(Tag.List(Some(1))), Start(Item), Event.Text("a"), End,
                      Event.Text("stray"), Start(Item), End, End];
    ParseIsDescent(events);
  }
}
