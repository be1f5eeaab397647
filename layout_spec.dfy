/**
 * The layout description language of the debugger front end, as values.
 *
 * A layout string such as `(1s-1c)|(1e-1t)` describes a tree of panes:
 * leaves `c` (console), `t` (terminal), `s` (source view) and `e`
 * (expression table), optional decimal weights in front of any node,
 * parenthesised sub-layouts, and horizontal (`|`) or vertical (`-`)
 * splits. This module gives the grammar as a functional specification
 * of the recursive-descent parser (`LayoutParser` runs it on a cursor),
 * a printer that is its inverse on well-formed trees, and the
 * properties the parser promises.
 */
module LayoutSpec {
  import opened Basics
  import opened Decimal

  /** The kinds of leaf pane. */
  datatype ContainerType = Console | Terminal | SrcView | ExpressionTable

  /** A layout tree; every child of a split carries its weight. */
  datatype Layout =
    | Leaf(kind: ContainerType)
    | HSplit(children: seq<(Layout, nat)>)
    | VSplit(children: seq<(Layout, nat)>)

  /** Parse errors; indices are character positions in the input. */
  datatype LayoutParseError =
    | TooShortExpected(expected: seq<char>)
    | ExpectedGotMany(index: nat, expected: seq<char>, got: char)
    | SplitTypeChangeFromTo(index: nat, from: char, to: char)

  /** The separator seen so far on one nesting level (`NoSplit`: none yet). */
  datatype SplitType = H | V | NoSplit

  /** Characters that may start a node (after its weight). */
  const NodeStartChars: seq<char> := ['c', 't', 's', 'e', '(']

  /** Characters that may close a parenthesised sub-layout. */
  const ClosingBracketChars: seq<char> := [')']

  predicate IsSeparator(c: char) {
    c == '|' || c == '-'
  }

  /** Every character from `a` up to (not including) `e` is a digit. */
  predicate DigitsBetween(s: seq<char>, a: nat, e: nat) {
    a <= e <= |s| && forall k :: a <= k < e ==> IsDigit(s[k])
  }

  /** The base-10 number written in `s` from `a` up to `e`. */
  function NumberBetween(s: seq<char>, a: nat, e: nat): nat
    requires DigitsBetween(s, a, e)
    decreases e - a
  {
    if e == a then 0 else NumberBetween(s, a, e - 1) * 10 + DigitValue(s[e - 1])
  }

  /** The end of the run of digits that starts at `pos`. */
  function DigitRunEnd(s: seq<char>, pos: nat): (e: nat)
    requires pos <= |s|
    ensures DigitsBetween(s, pos, e)
    ensures e == |s| || !IsDigit(s[e])
    decreases |s| - pos
  {
    if pos < |s| && IsDigit(s[pos]) then DigitRunEnd(s, pos + 1) else pos
  }

  /**
   * The weight in front of the node at `pos` and the position after it:
   * the value of the digits there, or 1 when there are none.
   */
  function WeightAt(s: seq<char>, pos: nat): (r: (nat, nat))
    requires pos <= |s|
    ensures pos <= r.1 <= |s|
    ensures r.1 == |s| || !IsDigit(s[r.1])
  {
    var e := DigitRunEnd(s, pos);
    if e == pos then (1, pos) else (NumberBetween(s, pos, e), e)
  }

  /** The leaf kind a character names, if any. */
  function LeafKind(c: char): (k: Option<ContainerType>)
    ensures k.Some? <==> c in NodeStartChars && c != '('
  {
    match c
    case 'c' => Some(Console)
    case 't' => Some(Terminal)
    case 's' => Some(SrcView)
    case 'e' => Some(ExpressionTable)
    case _ => None
  }

  /** The character that names a leaf kind: the inverse of `LeafKind`. */
  function KindChar(k: ContainerType): (c: char)
    ensures LeafKind(c) == Some(k)
    ensures c in NodeStartChars && c != '('
  {
    match k
    case Console => 'c'
    case Terminal => 't'
    case SrcView => 's'
    case ExpressionTable => 'e'
  }

  /** The split layout for a separator character. */
  function SplitOf(sep: char): SplitType
    requires IsSeparator(sep)
  {
    if sep == '|' then H else V
  }

  /** The node one nesting level yields: a split, or its only child unwrapped. */
  function Finish(nodes: seq<(Layout, nat)>, split: SplitType): (l: Layout)
    requires split == NoSplit ==> |nodes| == 1
    ensures split == NoSplit ==> l == nodes[0].0
    ensures split != NoSplit ==> !l.Leaf? && l.children == nodes && (l.HSplit? <==> split == H)
  {
    match split
    case H => HSplit(nodes)
    case V => VSplit(nodes)
    case NoSplit => nodes[0].0
  }

  /** Every split in the tree has at least two children. */
  predicate WellFormed(l: Layout) {
    match l
    case Leaf(_) => true
    case HSplit(ch) => |ch| >= 2 && forall k :: 0 <= k < |ch| ==> WellFormed(ch[k].0)
    case VSplit(ch) => |ch| >= 2 && forall k :: 0 <= k < |ch| ==> WellFormed(ch[k].0)
  }

  predicate AllWellFormed(nodes: seq<(Layout, nat)>) {
    forall k :: 0 <= k < |nodes| ==> WellFormed(nodes[k].0)
  }

  /** A nesting level stops at `k`: the input ends there or holds no separator. */
  predicate EndsLevel(s: seq<char>, k: nat) {
    k <= |s| && (k == |s| || !IsSeparator(s[k]))
  }

  /** What a failure tells about the input: the reported character is there. */
  predicate ErrorFitsInput(s: seq<char>, e: LayoutParseError) {
    match e
    case TooShortExpected(exp) => exp == NodeStartChars || exp == ClosingBracketChars
    case ExpectedGotMany(k, exp, c) =>
      k < |s| && s[k] == c && c !in exp && (exp == NodeStartChars || exp == ClosingBracketChars)
    case SplitTypeChangeFromTo(k, from, to) =>
      k < |s| && s[k] == to && IsSeparator(from) && IsSeparator(to) && from != to
  }

  /**
   * One weighted node at `pos`: its weight, then a leaf letter or a
   * bracketed sub-layout. On success the result is the node with its weight
   * and the position after it.
   */
  function ItemAt(s: seq<char>, pos: nat): (r: Result<((Layout, nat), nat), LayoutParseError>)
    requires pos <= |s|
    ensures r.Success? ==> pos < r.value.1 <= |s|
    decreases |s| - pos, 1
  {
    var (w, p) := WeightAt(s, pos);
    if p < |s| && LeafKind(s[p]).Some? then
      Success(((Leaf(LeafKind(s[p]).value), w), p + 1))
    else if p < |s| && s[p] == '(' then
      match ParseLevel(s, p + 1, [], NoSplit)
      case Failure(e) => Failure(e)
      case Success((inner, q)) =>
        if q < |s| && s[q] == ')' then Success(((inner, w), q + 1))
        else if q < |s| then Failure(ExpectedGotMany(q, ClosingBracketChars, s[q]))
        else Failure(TooShortExpected(ClosingBracketChars))
    else if p < |s| then
      Failure(ExpectedGotMany(p, NodeStartChars, s[p]))
    else
      Failure(TooShortExpected(NodeStartChars))
  }

  /**
   * One iteration of a nesting level: a weighted node, then what follows
   * it. `nodes` holds the weighted nodes read so far on this level and
   * `split` the separator seen so far. On success the result is the
   * level's node and the position where the level stopped.
   */
  function ParseLevel(s: seq<char>, pos: nat, nodes: seq<(Layout, nat)>, split: SplitType)
    : (r: Result<(Layout, nat), LayoutParseError>)
    requires pos <= |s|
    requires if split == NoSplit then nodes == [] else |nodes| >= 1
    ensures r.Success? ==> pos < r.value.1 <= |s|
    decreases |s| - pos, 2
  {
    match ItemAt(s, pos)
    case Failure(e) => Failure(e)
    case Success((item, next)) => AfterNode(s, next, nodes + [item], split)
  }

  /**
   * The rest of an iteration, after a node: a separator continues the
   * level (it must agree with the earlier ones), anything else ends it.
   */
  function AfterNode(s: seq<char>, pos: nat, nodes: seq<(Layout, nat)>, split: SplitType)
    : (r: Result<(Layout, nat), LayoutParseError>)
    requires 0 < pos <= |s|
    requires if split == NoSplit then |nodes| == 1 else |nodes| >= 2
    ensures r.Success? ==> pos <= r.value.1 <= |s|
    decreases |s| - pos, 0
  {
    if pos == |s| then
      Success((Finish(nodes, split), pos))
    else if s[pos] == '|' then
      if split == V then Failure(SplitTypeChangeFromTo(pos, '-', '|'))
      else ParseLevel(s, pos + 1, nodes, H)
    else if s[pos] == '-' then
      if split == H then Failure(SplitTypeChangeFromTo(pos, '|', '-'))
      else ParseLevel(s, pos + 1, nodes, V)
    else
      Success((Finish(nodes, split), pos))
  }

  /** The node that starts at `pos` and the position after it. */
  function NodeAt(s: seq<char>, pos: nat): (r: Result<(Layout, nat), LayoutParseError>)
    requires pos <= |s|
    ensures r.Success? ==> pos < r.value.1 <= |s|
    ensures pos == |s| ==> r == Failure(TooShortExpected(NodeStartChars))
  {
    assert pos == |s| ==> ItemAt(s, pos) == Failure(TooShortExpected(NodeStartChars));
    ParseLevel(s, pos, [], NoSplit)
  }

  /**
   * The whole parse: an empty input is refused before any node is read;
   * otherwise it is the node at the start, and what follows it is not read.
   */
  function ParseResult(s: seq<char>): (r: Result<Layout, LayoutParseError>)
    ensures |s| == 0 ==> r == Failure(TooShortExpected(NodeStartChars))
    ensures |s| > 0 ==> (r.Success? <==> NodeAt(s, 0).Success?)
    ensures r.Success? ==> r.value == NodeAt(s, 0).value.0
    ensures r.Failure? && |s| > 0 ==> r.error == NodeAt(s, 0).error
  {
    if |s| == 0 then Failure(TooShortExpected(NodeStartChars))
    else match NodeAt(s, 0)
      case Success((l, _)) => Success(l)
      case Failure(e) => Failure(e)
  }

  // ---------------------------------------------------------------------
  // What a level's result tells about the input

  /** A weighted node that is read is well-formed; a failure points into the input. */
  lemma {:induction false} ItemFacts(s: seq<char>, pos: nat)
    requires pos <= |s|
    ensures var r := ItemAt(s, pos);
      && (r.Success? ==> WellFormed(r.value.0.0))
      && (r.Failure? ==> ErrorFitsInput(s, r.error))
    decreases |s| - pos, 1
  {
    var (w, p) := WeightAt(s, pos);
    if p < |s| && LeafKind(s[p]).Some? {
    } else if p < |s| && s[p] == '(' {
      ParseLevelFacts(s, p + 1, [], NoSplit);
    }
  }

  /**
   * A level that succeeds stops at the end of the input or at a character
   * that is not a separator, and yields a well-formed tree; a level that
   * fails names a character that is really at the reported index.
   */
  lemma {:induction false} ParseLevelFacts(s: seq<char>, pos: nat, nodes: seq<(Layout, nat)>, split: SplitType)
    requires pos <= |s|
    requires if split == NoSplit then nodes == [] else |nodes| >= 1
    requires AllWellFormed(nodes)
    ensures var r := ParseLevel(s, pos, nodes, split);
      && (r.Success? ==> EndsLevel(s, r.value.1) && WellFormed(r.value.0))
      && (r.Failure? ==> ErrorFitsInput(s, r.error))
    decreases |s| - pos, 2
  {
    ItemFacts(s, pos);
    var r := ItemAt(s, pos);
    if r.Success? {
      AfterNodeFacts(s, r.value.1, nodes + [r.value.0], split);
    }
  }

  /** The same facts for the rest of a level after one of its nodes. */
  lemma {:induction false} AfterNodeFacts(s: seq<char>, pos: nat, nodes: seq<(Layout, nat)>, split: SplitType)
    requires 0 < pos <= |s|
    requires if split == NoSplit then |nodes| == 1 else |nodes| >= 2
    requires AllWellFormed(nodes)
    ensures var r := AfterNode(s, pos, nodes, split);
      && (r.Success? ==> EndsLevel(s, r.value.1) && WellFormed(r.value.0))
      && (r.Failure? ==> ErrorFitsInput(s, r.error))
    decreases |s| - pos, 0
  {
    if pos < |s| && IsSeparator(s[pos]) && (split == NoSplit || split == SplitOf(s[pos])) {
      ParseLevelFacts(s, pos + 1, nodes, SplitOf(s[pos]));
    }
  }

  /** The top-level parse yields well-formed trees and errors that point into the input. */
  lemma ParseFacts(s: seq<char>)
    ensures ParseResult(s).Success? ==> WellFormed(ParseResult(s).value)
    ensures ParseResult(s).Failure? ==> ErrorFitsInput(s, ParseResult(s).error)
  {
    if |s| > 0 {
      ParseLevelFacts(s, 0, [], NoSplit);
    }
  }

  // ---------------------------------------------------------------------
  // Text at a position

  /** `t` is written in `s` from position `pos` on. */
  predicate At(s: seq<char>, pos: nat, t: seq<char>) {
    pos + |t| <= |s| && forall k :: 0 <= k < |t| ==> s[pos + k] == t[k]
  }

  lemma AtConcat(s: seq<char>, pos: nat, a: seq<char>, b: seq<char>)
    requires At(s, pos, a + b)
    ensures At(s, pos, a) && At(s, pos + |a|, b)
  {
    forall k | 0 <= k < |a|
      ensures s[pos + k] == a[k]
    {
      assert (a + b)[k] == a[k];
    }
    forall k | 0 <= k < |b|
      ensures s[pos + |a| + k] == b[k]
    {
      assert (a + b)[|a| + k] == b[k];
    }
  }

  /** A text, a character and a text written one after the other. */
  lemma AtConcat3(s: seq<char>, pos: nat, a: seq<char>, c: char, b: seq<char>)
    requires At(s, pos, a + [c] + b)
    ensures At(s, pos, a) && pos + |a| < |s| && s[pos + |a|] == c && At(s, pos + |a| + 1, b)
  {
    AtConcat(s, pos, a + [c], b);
    AtConcat(s, pos, a, [c]);
    assert s[pos + |a| + 0] == [c][0];
  }

  // ---------------------------------------------------------------------
  // Weights

  /** `DigitRunEnd` finds the end of a run of digits written at `pos`. */
  lemma {:induction false} DigitRunEndOfRun(s: seq<char>, pos: nat, n: nat)
    requires DigitsBetween(s, pos, pos + n)
    requires pos + n == |s| || !IsDigit(s[pos + n])
    ensures DigitRunEnd(s, pos) == pos + n
    decreases n
  {
    if n > 0 {
      DigitRunEndOfRun(s, pos + 1, n - 1);
    }
  }

  /** The digits written at `pos` denote the number they spell. */
  lemma {:induction false} NumberOfDigits(s: seq<char>, pos: nat, ds: seq<char>)
    requires At(s, pos, ds) && AllDigits(ds)
    ensures DigitsBetween(s, pos, pos + |ds|)
    ensures NumberBetween(s, pos, pos + |ds|) == DigitsValue(ds)
    decreases |ds|
  {
    if ds != [] {
      var init := ds[..|ds| - 1];
      assert ds == init + [ds[|ds| - 1]];
      AtConcat(s, pos, init, [ds[|ds| - 1]]);
      NumberOfDigits(s, pos, init);
      assert s[pos + |init| + 0] == [ds[|ds| - 1]][0];
    }
  }

  /**
   * A weight is the base-10 value of the digits written in front of the
   * node, and the cursor moves past exactly those digits; with no digits
   * the weight is 1 and nothing is consumed.
   */
  lemma WeightOfDigits(s: seq<char>, pos: nat, ds: seq<char>)
    requires At(s, pos, ds) && AllDigits(ds)
    requires pos + |ds| == |s| || !IsDigit(s[pos + |ds|])
    ensures WeightAt(s, pos) == (if ds == [] then 1 else DigitsValue(ds), pos + |ds|)
  {
    NumberOfDigits(s, pos, ds);
    DigitRunEndOfRun(s, pos, |ds|);
  }

  /** `99e` has weight 99 and `s` has weight 1. */
  lemma WeightExamples()
    ensures WeightAt("99e", 0) == (99, 2)
    ensures WeightAt("s", 0) == (1, 0)
  {
    WeightOfDigits("99e", 0, "99");
    assert DigitsValue("99") == 99 by {
      assert "99"[..1] == "9";
      assert "9"[..0] == [];
    }
    WeightOfDigits("s", 0, []);
  }

  // ---------------------------------------------------------------------
  // The printer and the round trip

  /** The separator character a split is written with. */
  function SepChar(l: Layout): (c: char)
    requires !l.Leaf?
    ensures IsSeparator(c) && SplitOf(c) == (if l.HSplit? then H else V)
  {
    if l.HSplit? then '|' else '-'
  }

  /** The layout string of a tree; every weight is written out, the default 1 included. */
  function Render(l: Layout): (r: seq<char>)
    requires WellFormed(l)
    ensures |r| >= 1
    decreases l, 2
  {
    if l.Leaf? then [KindChar(l.kind)] else RenderChildren(l, 0)
  }

  /** The children of a split from the `i`-th on, joined by its separator. */
  function RenderChildren(l: Layout, i: nat): (r: seq<char>)
    requires WellFormed(l) && !l.Leaf? && i < |l.children|
    decreases l, 1, |l.children| - i
  {
    if i == |l.children| - 1 then RenderItem(l, i)
    else RenderItem(l, i) + [SepChar(l)] + RenderChildren(l, i + 1)
  }

  /** The `i`-th child of a split: its weight, then a leaf letter or a bracketed sub-layout. */
  function RenderItem(l: Layout, i: nat): (r: seq<char>)
    requires WellFormed(l) && !l.Leaf? && i < |l.children|
    decreases l, 0
  {
    var (child, w) := l.children[i];
    NatDigits(w) + (if child.Leaf? then [KindChar(child.kind)] else ['('] + Render(child) + [')'])
  }

  /** A well-formed tree followed by the end or a non-separator is read back whole. */
  lemma {:induction false} NodeRoundTrip(s: seq<char>, pos: nat, l: Layout)
    requires WellFormed(l)
    requires At(s, pos, Render(l)) && EndsLevel(s, pos + |Render(l)|)
    ensures NodeAt(s, pos) == Success((l, pos + |Render(l)|))
    decreases l, 2, 0, 0
  {
    if l.Leaf? {
      assert s[pos + 0] == Render(l)[0];
      WeightOfDigits(s, pos, []);
      assert ItemAt(s, pos) == Success(((l, 1), pos + 1));
      AfterNodeStops(s, pos + 1, [(l, 1)], NoSplit);
    } else {
      ChildrenRoundTrip(s, pos, l, 0, [], NoSplit);
      assert [] + l.children[0..] == l.children;
    }
  }

  /** After a node, the end of input or a non-separator ends the level. */
  lemma AfterNodeStops(s: seq<char>, pos: nat, nodes: seq<(Layout, nat)>, split: SplitType)
    requires 0 < pos && EndsLevel(s, pos)
    requires if split == NoSplit then |nodes| == 1 else |nodes| >= 2
    ensures AfterNode(s, pos, nodes, split) == Success((Finish(nodes, split), pos))
  {
  }

  /** After a node, a separator that agrees with the level continues it. */
  lemma AfterNodeContinues(s: seq<char>, pos: nat, nodes: seq<(Layout, nat)>, split: SplitType)
    requires 0 < pos < |s| && IsSeparator(s[pos])
    requires if split == NoSplit then |nodes| == 1 else |nodes| >= 2
    requires split == NoSplit || split == SplitOf(s[pos])
    ensures AfterNode(s, pos, nodes, split) == ParseLevel(s, pos + 1, nodes, SplitOf(s[pos]))
  {
  }

  /** The children of a split from the `i`-th on are read as one level. */
  lemma {:induction false} ChildrenRoundTrip(
    s: seq<char>, pos: nat, l: Layout, i: nat, nodes: seq<(Layout, nat)>, split: SplitType)
    requires WellFormed(l) && !l.Leaf? && i < |l.children|
    requires At(s, pos, RenderChildren(l, i)) && EndsLevel(s, pos + |RenderChildren(l, i)|)
    requires if split == NoSplit then nodes == [] && i == 0 else split == SplitOf(SepChar(l)) && |nodes| >= 1
    ensures ParseLevel(s, pos, nodes, split)
         == Success((Finish(nodes + l.children[i..], SplitOf(SepChar(l))), pos + |RenderChildren(l, i)|))
    decreases l, 1, |l.children| - i, 2
  {
    if i == |l.children| - 1 {
      var p1 := pos + |RenderItem(l, i)|;
      assert RenderChildren(l, i) == RenderItem(l, i);
      ItemRoundTrip(s, pos, l, i);
      ParseLevelStep(s, pos, nodes, split, l.children[i], p1);
      AfterNodeStops(s, p1, nodes + [l.children[i]], split);
      assert l.children[i..] == [l.children[i]];
    } else {
      MoreChildrenRoundTrip(s, pos, l, i, nodes, split);
    }
  }

  /** The same, when more than one child is left: the level goes on after a separator. */
  lemma {:induction false} MoreChildrenRoundTrip(
    s: seq<char>, pos: nat, l: Layout, i: nat, nodes: seq<(Layout, nat)>, split: SplitType)
    requires WellFormed(l) && !l.Leaf? && i < |l.children| - 1
    requires At(s, pos, RenderChildren(l, i)) && EndsLevel(s, pos + |RenderChildren(l, i)|)
    requires if split == NoSplit then nodes == [] && i == 0 else split == SplitOf(SepChar(l)) && |nodes| >= 1
    ensures ParseLevel(s, pos, nodes, split)
         == Success((Finish(nodes + l.children[i..], SplitOf(SepChar(l))), pos + |RenderChildren(l, i)|))
    decreases l, 1, |l.children| - i, 1
  {
    ItemThenSeparator(s, pos, l, i, nodes, split);
    RestRoundTrip(s, pos, pos + |RenderItem(l, i)| + 1, l, i, nodes);
  }

  /** What follows the separator after the `i`-th child is read as the rest of the level. */
  lemma {:induction false} RestRoundTrip(s: seq<char>, pos: nat, next: nat, l: Layout, i: nat, nodes: seq<(Layout, nat)>)
    requires WellFormed(l) && !l.Leaf? && i < |l.children| - 1
    requires At(s, next, RenderChildren(l, i + 1)) && EndsLevel(s, pos + |RenderChildren(l, i)|)
    requires next + |RenderChildren(l, i + 1)| == pos + |RenderChildren(l, i)|
    ensures ParseLevel(s, next, nodes + [l.children[i]], SplitOf(SepChar(l)))
         == Success((Finish(nodes + l.children[i..], SplitOf(SepChar(l))), pos + |RenderChildren(l, i)|))
    decreases l, 1, |l.children| - i, 0
  {
    ChildrenRoundTrip(s, next, l, i + 1, nodes + [l.children[i]], SplitOf(SepChar(l)));
    AppendChild(nodes, l.children, i);
  }

  /** A child that is not the last one is read, and so is the separator after it. */
  lemma {:induction false} ItemThenSeparator(
    s: seq<char>, pos: nat, l: Layout, i: nat, nodes: seq<(Layout, nat)>, split: SplitType)
    requires WellFormed(l) && !l.Leaf? && i < |l.children| - 1
    requires At(s, pos, RenderChildren(l, i))
    requires if split == NoSplit then nodes == [] && i == 0 else split == SplitOf(SepChar(l)) && |nodes| >= 1
    ensures At(s, pos + |RenderItem(l, i)| + 1, RenderChildren(l, i + 1))
    ensures pos + |RenderItem(l, i)| + 1 + |RenderChildren(l, i + 1)| == pos + |RenderChildren(l, i)|
    ensures ParseLevel(s, pos, nodes, split)
         == ParseLevel(s, pos + |RenderItem(l, i)| + 1, nodes + [l.children[i]], SplitOf(SepChar(l)))
    decreases l, 1, |l.children| - i, 0
  {
    var p1 := pos + |RenderItem(l, i)|;
    ChildrenText(s, pos, l, i);
    ItemRoundTrip(s, pos, l, i);
    ParseLevelStep(s, pos, nodes, split, l.children[i], p1);
    AfterNodeContinues(s, p1, nodes + [l.children[i]], split);
  }

  /** A level reads its next weighted node and goes on after it. */
  lemma ParseLevelStep(
    s: seq<char>, pos: nat, nodes: seq<(Layout, nat)>, split: SplitType, item: (Layout, nat), next: nat)
    requires pos <= |s|
    requires if split == NoSplit then nodes == [] else |nodes| >= 1
    requires ItemAt(s, pos) == Success((item, next))
    ensures ParseLevel(s, pos, nodes, split) == AfterNode(s, next, nodes + [item], split)
  {
  }

  /** The text of the children from the `i`-th on, when more than one is left. */
  lemma ChildrenText(s: seq<char>, pos: nat, l: Layout, i: nat)
    requires WellFormed(l) && !l.Leaf? && i < |l.children| - 1
    requires At(s, pos, RenderChildren(l, i))
    ensures At(s, pos, RenderItem(l, i))
    ensures s[pos + |RenderItem(l, i)|] == SepChar(l)
    ensures At(s, pos + |RenderItem(l, i)| + 1, RenderChildren(l, i + 1))
    ensures |RenderChildren(l, i)| == |RenderItem(l, i)| + 1 + |RenderChildren(l, i + 1)|
  {
    AtConcat3(s, pos, RenderItem(l, i), SepChar(l), RenderChildren(l, i + 1));
  }

  lemma AppendChild(nodes: seq<(Layout, nat)>, ch: seq<(Layout, nat)>, i: nat)
    requires i < |ch|
    ensures nodes + [ch[i]] + ch[i + 1..] == nodes + ch[i..]
  {
    assert ch[i..] == [ch[i]] + ch[i + 1..];
  }

  /** One weighted child of a split is read, weight and all. */
  lemma {:induction false} ItemRoundTrip(s: seq<char>, pos: nat, l: Layout, i: nat)
    requires WellFormed(l) && !l.Leaf? && i < |l.children|
    requires At(s, pos, RenderItem(l, i))
    ensures ItemAt(s, pos) == Success((l.children[i], pos + |RenderItem(l, i)|))
    decreases l, 0, 0, 0
  {
    var (child, w) := l.children[i];
    assert WellFormed(child);
    var ds := NatDigits(w);
    var p := pos + |ds|;
    if child.Leaf? {
      AtConcat3(s, pos, ds, KindChar(child.kind), []);
      LeafItem(s, pos, ds, w, child.kind);
    } else {
      var r := Render(child);
      assert RenderItem(l, i) == ds + ['('] + (r + [')']);
      AtConcat3(s, pos, ds, '(', r + [')']);
      AtConcat3(s, p + 1, r, ')', []);
      NodeRoundTrip(s, p + 1, child);
      GroupItem(s, pos, ds, w, child, p + 1 + |r|);
    }
  }

  /** Weight digits and a leaf letter are read as a weighted leaf. */
  lemma LeafItem(s: seq<char>, pos: nat, ds: seq<char>, w: nat, k: ContainerType)
    requires At(s, pos, ds) && AllDigits(ds) && (if ds == [] then 1 else DigitsValue(ds)) == w
    requires pos + |ds| < |s| && s[pos + |ds|] == KindChar(k)
    ensures ItemAt(s, pos) == Success(((Leaf(k), w), pos + |ds| + 1))
  {
    WeightOfDigits(s, pos, ds);
  }

  /** Weight digits and a bracketed layout are read as a weighted sub-layout. */
  lemma GroupItem(s: seq<char>, pos: nat, ds: seq<char>, w: nat, inner: Layout, q: nat)
    requires At(s, pos, ds) && AllDigits(ds) && (if ds == [] then 1 else DigitsValue(ds)) == w
    requires pos + |ds| < |s| && s[pos + |ds|] == '('
    requires NodeAt(s, pos + |ds| + 1) == Success((inner, q)) && q < |s| && s[q] == ')'
    ensures ItemAt(s, pos) == Success(((inner, w), q + 1))
  {
    WeightOfDigits(s, pos, ds);
  }

  /**
   * The printer is a right inverse of the parser: every well-formed tree
   * is read back from its layout string.
   */
  lemma {:induction false} ParseRoundTrip(l: Layout)
    requires WellFormed(l)
    ensures ParseResult(Render(l)) == Success(l)
  {
    assert At(Render(l), 0, Render(l));
    NodeRoundTrip(Render(l), 0, l);
  }
}
