/**
 * The layout parser as it runs: a cursor over the characters of the input
 * and the recursive-descent routines that move it. Each routine is proved
 * against the functional grammar in `LayoutSpec`, so everything proved
 * there (well-formed results, errors that point into the input, the round
 * trip with the printer) holds for what the routines return.
 */
module LayoutParser {
  import opened Basics
  import opened LayoutSpec
  import opened Decimal

  /** A peekable cursor over the characters of the layout string. */
  class Input {
    const text: seq<char>
    var pos: nat

    ghost predicate Valid()
      reads this
    {
      pos <= |text|
    }

    constructor (s: seq<char>)
      ensures text == s && pos == 0 && Valid()
    {
      text := s;
      pos := 0;
    }

    /** The character under the cursor, or nothing at the end of the input. */
    function Current(): (c: Option<char>)
      reads this
      requires Valid()
      ensures c.Some? <==> pos < |text|
      ensures c.Some? ==> c.value == text[pos]
    {
      if pos < |text| then Some(text[pos]) else None
    }

    /** The index of the character under the cursor; there must be one. */
    function CurrentIndex(): (k: nat)
      reads this
      requires Valid() && pos < |text|
      ensures k < |text| && Current() == Some(text[k])
    {
      pos
    }

    /** Moves past the character under the cursor; at the end nothing moves. */
    method Advance()
      requires Valid()
      modifies this
      ensures Valid()
      ensures pos == if old(pos) < |text| then old(pos) + 1 else old(pos)
    {
      if pos < |text| {
        pos := pos + 1;
      }
    }
  }

  /** A cursor on a string; an empty string is refused with the node-start characters. */
  method NewInput(s: seq<char>) returns (r: Result<Input, LayoutParseError>)
    ensures r.Failure? <==> |s| == 0
    ensures r.Failure? ==> r.error == TooShortExpected(NodeStartChars)
    ensures r.Success? ==> fresh(r.value) && r.value.Valid() && r.value.text == s && r.value.pos == 0
  {
    var i := new Input(s);
    if i.Current().None? {
      return Failure(TooShortExpected(NodeStartChars));
    }
    return Success(i);
  }

  /**
   * Reads the weight in front of a node: the value of the digits under the
   * cursor, or 1 when there are none.
   */
  method TryParseWeight(i: Input) returns (w: nat)
    requires i.Valid()
    modifies i
    ensures i.Valid()
    ensures (w, i.pos) == WeightAt(i.text, old(i.pos))
  {
    var c := i.Current();
    if !(c.Some? && IsDigit(c.value)) {
      return 1;
    }
    ghost var start := i.pos;
    w := 0;
    while true
      invariant i.Valid() && start <= i.pos
      invariant DigitsBetween(i.text, start, i.pos)
      invariant w == NumberBetween(i.text, start, i.pos)
      invariant DigitRunEnd(i.text, i.pos) == DigitRunEnd(i.text, start) > start
      decreases |i.text| - i.pos
    {
      c := i.Current();
      if c.None? || !IsDigit(c.value) {
        return w;
      }
      w := w * 10 + DigitValue(c.value);
      i.Advance();
    }
  }

  /** Reads a leaf letter, if one is under the cursor. */
  method TryParseLeaf(i: Input) returns (l: Option<Layout>)
    requires i.Valid()
    modifies i
    ensures i.Valid()
    ensures var at := old(i.pos);
      if at < |i.text| && LeafKind(i.text[at]).Some? then
        l == Some(Leaf(LeafKind(i.text[at]).value)) && i.pos == at + 1
      else
        l == None && i.pos == at
  {
    var c := i.Current();
    if c.None? {
      return None;
    }
    var kind := LeafKind(c.value);
    if kind.None? {
      return None;
    }
    i.Advance();
    return Some(Leaf(kind.value));
  }

  /**
   * Reads one weighted node: its weight, then a leaf letter or a bracketed
   * sub-layout; the first half of one iteration of `ParseNode`'s loop.
   */
  method ParseItem(i: Input) returns (r: Result<(Layout, nat), LayoutParseError>)
    requires i.Valid()
    modifies i
    ensures i.Valid()
    ensures ItemAt(i.text, old(i.pos)) == if r.Success? then Success((r.value, i.pos)) else Failure(r.error)
    decreases |i.text| - i.pos, 0
  {
    var w := TryParseWeight(i);
    var leaf := TryParseLeaf(i);
    if leaf.Some? {
      return Success((leaf.value, w));
    }
    var c := i.Current();
    if c == Some('(') {
      i.Advance();
      var inner := ParseNode(i);
      if inner.Failure? {
        return Failure(inner.error);
      }
      c := i.Current();
      match c {
        case Some(')') =>
          i.Advance();
          return Success((inner.value, w));
        case Some(o) =>
          return Failure(ExpectedGotMany(i.CurrentIndex(), ClosingBracketChars, o));
        case None =>
          return Failure(TooShortExpected(ClosingBracketChars));
      }
    } else if c.Some? {
      return Failure(ExpectedGotMany(i.CurrentIndex(), NodeStartChars, c.value));
    } else {
      return Failure(TooShortExpected(NodeStartChars));
    }
  }

  /**
   * Reads one nesting level: weighted nodes joined by one kind of
   * separator. The level ends at the end of the input or at any other
   * character; a level of one node is that node itself.
   */
  method ParseNode(i: Input) returns (r: Result<Layout, LayoutParseError>)
    requires i.Valid()
    modifies i
    ensures i.Valid()
    ensures NodeAt(i.text, old(i.pos)) == if r.Success? then Success((r.value, i.pos)) else Failure(r.error)
    decreases |i.text| - i.pos, 1
  {
    ghost var start := i.pos;
    var nodes: seq<(Layout, nat)> := [];
    var split := NoSplit;
    while true
      invariant i.Valid() && start <= i.pos
      invariant if split == NoSplit then nodes == [] else |nodes| >= 1
      invariant ParseLevel(i.text, i.pos, nodes, split) == NodeAt(i.text, start)
      decreases |i.text| - i.pos
    {
      var item := ParseItem(i);
      if item.Failure? {
        return Failure(item.error);
      }
      nodes := nodes + [item.value];
      var c := i.Current();
      if c.None? {
        break;
      }
      match (split, c.value) {
        case (NoSplit, '|') => split := H;
        case (H, '|') => split := H;
        case (V, '|') =>
          return Failure(SplitTypeChangeFromTo(i.CurrentIndex(), '-', '|'));
        case (NoSplit, '-') => split := V;
        case (V, '-') => split := V;
        case (H, '-') =>
          return Failure(SplitTypeChangeFromTo(i.CurrentIndex(), '|', '-'));
        case (_, _) => break;
      }
      i.Advance();
    }
    return Success(Finish(nodes, split));
  }

  /** Parses a whole layout string. */
  method Parse(s: seq<char>) returns (r: Result<Layout, LayoutParseError>)
    ensures r == ParseResult(s)
    ensures r.Success? ==> WellFormed(r.value)
    ensures r.Failure? ==> ErrorFitsInput(s, r.error)
  {
    var input := NewInput(s);
    if input.Failure? {
      return Failure(input.error);
    }
    r := ParseNode(input.value);
    ParseFacts(s);
  }
}
