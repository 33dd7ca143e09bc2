/**
  The event stream the Markdown tokenizer produces.  The tokenizer itself is not
  part of this model; only the shape of its output and its nesting contract are.
*/
module Events {
  import opened Wrappers

  /** The tokenizer's heading level; its discriminants are 1 through 6. */
  datatype HeadingLevel = H1 | H2 | H3 | H4 | H5 | H6

  /** The discriminant of a heading level, as an `as u8` cast yields it. */
  function LevelNumber(h: HeadingLevel): (n: int)
    ensures 1 <= n <= 6
  {
    match h
    case H1 => 1
    case H2 => 2
    case H3 => 3
    case H4 => 4
    case H5 => 5
    case H6 => 6
  }

  datatype CodeBlockKind = Fenced(lang: string) | Indented

  /** The constructs a Start event can open; `OtherTag` stands for every tag the reducer does not name. */
  datatype Tag =
    | Heading(level: HeadingLevel)
    | Paragraph
    | Emphasis
    | Strong
    | BlockQuote
    | List(start: Option<nat>)
    | Item
    | Link(destUrl: string)
    | CodeBlock(kind: CodeBlockKind)
    | OtherTag

  /** `Other` stands for every event the reducer ignores (breaks, rules, raw HTML, ...). */
  datatype Event =
    | Start(tag: Tag)
    | End
    | Text(text: string)
    | Code(code: string)
    | Other

  /**
    Read from left to right, `events` closes exactly the `open` constructs that
    are open before it, and no End ever closes a construct that is not open.
  */
  predicate Balanced(events: seq<Event>, open: nat)
    decreases |events|
  {
    if events == [] then open == 0
    else match events[0]
      case Start(_) => Balanced(events[1..], open + 1)
      case End => open > 0 && Balanced(events[1..], open - 1)
      case _ => Balanced(events[1..], open)
  }

  /** `Balanced` read one event at a time from the front. */
  lemma BalancedCons(e: Event, tail: seq<Event>, open: nat)
    ensures Balanced([e] + tail, open) ==
      if e.Start? then Balanced(tail, open + 1)
      else if e.End? then open > 0 && Balanced(tail, open - 1)
      else Balanced(tail, open)
  {
    assert ([e] + tail)[1..] == tail;
  }

  /** The tokenizer's contract: every Start has exactly one matching, properly nested End. */
  predicate WellNested(events: seq<Event>)
  {
    Balanced(events, 0)
  }

  /** How an event changes the number of open constructs. */
  function Delta(e: Event): int
  {
    if e.Start? then 1 else if e.End? then -1 else 0
  }

  /** The net nesting depth after `events`: Starts minus Ends. */
  function Depth(events: seq<Event>): int
    decreases |events|
  {
    if events == [] then 0 else Depth(events[..|events| - 1]) + Delta(events[|events| - 1])
  }

  lemma {:induction false} DepthCons(e: Event, events: seq<Event>)
    ensures Depth([e] + events) == Delta(e) + Depth(events)
    decreases |events|
  {
    if events != [] {
      var init := events[..|events| - 1];
      assert ([e] + events)[..|events|] == [e] + init;
      DepthCons(e, init);
    }
  }

  /**
    `Balanced` agrees with the counting reading of nesting: the depth never
    drops below zero on any prefix and is back at zero after the last event.
  */
  lemma {:induction false} BalancedIffDepth(events: seq<Event>, open: nat)
    ensures Balanced(events, open) <==>
            (forall k :: 0 <= k <= |events| ==> open + Depth(events[..k]) >= 0) &&
            open + Depth(events) == 0
    decreases |events|
  {
    if events == [] {
      assert events[..0] == [];
    } else {
      var e, rest := events[0], events[1..];
      assert events == [e] + rest;
      DepthCons(e, rest);
      forall k | 1 <= k <= |events|
        ensures Depth(events[..k]) == Delta(e) + Depth(rest[..k - 1])
      {
        assert events[..k] == [e] + rest[..k - 1];
        DepthCons(e, rest[..k - 1]);
      }
      assert events[..0] == [];
      if e.End? && open == 0 {
        assert events[..1] == [e] + rest[..0];
        assert rest[..0] == [];
      } else {
        var open' := open + Delta(e);
        BalancedIffDepth(rest, open');
        if Balanced(events, open) {
          forall k | 0 <= k <= |events|
            ensures open + Depth(events[..k]) >= 0
          {
            if k > 0 {
              assert open' + Depth(rest[..k - 1]) >= 0;
            }
          }
        } else {
          if forall k :: 0 <= k <= |events| ==> open + Depth(events[..k]) >= 0 {
            forall k | 0 <= k <= |rest|
              ensures open' + Depth(rest[..k]) >= 0
            {
              assert open + Depth(events[..k + 1]) >= 0;
            }
          }
        }
      }
    }
  }
}
