module LayoutExamples {
  import opened Basics
  import opened LayoutSpec
  import opened Decimal

  lemma ErrorExamples()
    ensures ParseResult("") == Failure(TooShortExpected(NodeStartChars))
    ensures ParseResult("f") == Failure(ExpectedGotMany(0, NodeStartChars, 'f'))
    ensures ParseResult("(c-e") == Failure(TooShortExpected(ClosingBracketChars))
    ensures ParseResult("s-e|t") == Failure(SplitTypeChangeFromTo(3, '-', '|'))
  {
  }

  function TripleText(): seq<char> {
    "(s|2t|c)-99e"
  }

  function TripleInner(): Layout {
    HSplit([(Leaf(SrcView), 1), (Leaf(Terminal), 2), (Leaf(Console), 1)])
  }

  lemma TripleChars(s: seq<char>)
    requires At(s, 0, TripleText()) && |s| == 12
    ensures s[0] == '(' && s[1] == 's' && s[2] == '|' && s[3] == '2' && s[4] == 't' && s[5] == '|'
    ensures s[6] == 'c' && s[7] == ')' && s[8] == '-' && s[9] == '9' && s[10] == '9' && s[11] == 'e'
  {
    var t := TripleText();
    assert s[0 + 0] == t[0] && s[0 + 1] == t[1] && s[0 + 2] == t[2] && s[0 + 3] == t[3];
    assert s[0 + 4] == t[4] && s[0 + 5] == t[5] && s[0 + 6] == t[6] && s[0 + 7] == t[7];
    assert s[0 + 8] == t[8] && s[0 + 9] == t[9] && s[0 + 10] == t[10] && s[0 + 11] == t[11];
  }

  lemma TripleInnerLevel(s: seq<char>)
    requires |s| == 12
    requires s[0] == '(' && s[1] == 's' && s[2] == '|' && s[3] == '2' && s[4] == 't' && s[5] == '|'
    requires s[6] == 'c' && s[7] == ')'
    ensures NodeAt(s, 1) == Success((TripleInner(), 7))
  {
    var a, b, c := (Leaf(SrcView), 1), (Leaf(Terminal), 2), (Leaf(Console), 1);
    assert DigitsValue("2") == 2 by {
      assert "2"[..0] == [];
    }
    LeafItem(s, 1, [], 1, SrcView);
    ParseLevelStep(s, 1, [], NoSplit, a, 2);
    assert [] + [a] == [a];
    AfterNodeContinues(s, 2, [a], NoSplit);
    assert At(s, 3, "2");
    LeafItem(s, 3, "2", 2, Terminal);
    ParseLevelStep(s, 3, [a], H, b, 5);
    assert [a] + [b] == [a, b];
    AfterNodeContinues(s, 5, [a, b], H);
    LeafItem(s, 6, [], 1, Console);
    ParseLevelStep(s, 6, [a, b], H, c, 7);
    assert [a, b] + [c] == [a, b, c];
    AfterNodeStops(s, 7, [a, b, c], H);
  }

  lemma TripleOuterLevel(s: seq<char>)
    requires |s| == 12 && NodeAt(s, 1) == Success((TripleInner(), 7))
    requires s[0] == '(' && s[7] == ')' && s[8] == '-' && s[9] == '9' && s[10] == '9' && s[11] == 'e'
    ensures NodeAt(s, 0) == Success((VSplit([(TripleInner(), 1), (Leaf(ExpressionTable), 99)]), 12))
  {
    var inner, e := (TripleInner(), 1), (Leaf(ExpressionTable), 99);
    assert DigitsValue("99") == 99 by {
      assert "99"[..1] == "9" && "9"[..0] == [];
    }
    GroupItem(s, 0, [], 1, TripleInner(), 7);
    ParseLevelStep(s, 0, [], NoSplit, inner, 8);
    assert [] + [inner] == [inner];
    AfterNodeContinues(s, 8, [inner], NoSplit);
    assert At(s, 9, "99");
    LeafItem(s, 9, "99", 99, ExpressionTable);
    ParseLevelStep(s, 9, [inner], V, e, 12);
    assert [inner] + [e] == [inner, e];
    AfterNodeStops(s, 12, [inner, e], V);
  }

  lemma TripleWeighted()
    ensures ParseResult("(s|2t|c)-99e")
         == Success(VSplit([(HSplit([(Leaf(SrcView), 1), (Leaf(Terminal), 2), (Leaf(Console), 1)]), 1),
                            (Leaf(ExpressionTable), 99)]))
  {
    var s := TripleText();
    TripleChars(s);
    TripleInnerLevel(s);
    TripleOuterLevel(s);
  }

  function DefaultText(): seq<char> {
    "(1s-1c)|(1e-1t)"
  }

  lemma DefaultChars(s: seq<char>)
    requires At(s, 0, DefaultText()) && |s| == 15
    ensures s[0] == '(' && s[1] == '1' && s[2] == 's' && s[3] == '-' && s[4] == '1' && s[5] == 'c'
    ensures s[6] == ')' && s[7] == '|' && s[8] == '(' && s[9] == '1' && s[10] == 'e' && s[11] == '-'
    ensures s[12] == '1' && s[13] == 't' && s[14] == ')'
  {
    var t := DefaultText();
    assert s[0 + 0] == t[0] && s[0 + 1] == t[1] && s[0 + 2] == t[2] && s[0 + 3] == t[3] && s[0 + 4] == t[4];
    assert s[0 + 5] == t[5] && s[0 + 6] == t[6] && s[0 + 7] == t[7] && s[0 + 8] == t[8] && s[0 + 9] == t[9];
    assert s[0 + 10] == t[10] && s[0 + 11] == t[11] && s[0 + 12] == t[12] && s[0 + 13] == t[13];
    assert s[0 + 14] == t[14];
  }

  /** `1x-1y` followed by `)` is a vertical split of two leaves of weight 1. */
  lemma PairLevel(s: seq<char>, p: nat, x: ContainerType, y: ContainerType)
    requires p + 5 < |s| && s[p + 5] == ')'
    requires s[p] == '1' && s[p + 1] == KindChar(x) && s[p + 2] == '-' && s[p + 3] == '1' && s[p + 4] == KindChar(y)
    ensures NodeAt(s, p) == Success((VSplit([(Leaf(x), 1), (Leaf(y), 1)]), p + 5))
  {
    var a, b := (Leaf(x), 1), (Leaf(y), 1);
    assert DigitsValue("1") == 1 by {
      assert "1"[..0] == [];
    }
    assert At(s, p, "1");
    LeafItem(s, p, "1", 1, x);
    ParseLevelStep(s, p, [], NoSplit, a, p + 2);
    assert [] + [a] == [a];
    AfterNodeContinues(s, p + 2, [a], NoSplit);
    assert At(s, p + 3, "1");
    LeafItem(s, p + 3, "1", 1, y);
    ParseLevelStep(s, p + 3, [a], V, b, p + 5);
    assert [a] + [b] == [a, b];
    AfterNodeStops(s, p + 5, [a, b], V);
  }

  lemma DefaultOuterLevel(s: seq<char>)
    requires |s| == 15
    requires s[0] == '(' && s[6] == ')' && s[7] == '|' && s[8] == '(' && s[14] == ')'
    requires NodeAt(s, 1) == Success((VSplit([(Leaf(SrcView), 1), (Leaf(Console), 1)]), 6))
    requires NodeAt(s, 9) == Success((VSplit([(Leaf(ExpressionTable), 1), (Leaf(Terminal), 1)]), 14))
    ensures NodeAt(s, 0) == Success((HSplit([(VSplit([(Leaf(SrcView), 1), (Leaf(Console), 1)]), 1),
                                             (VSplit([(Leaf(ExpressionTable), 1), (Leaf(Terminal), 1)]), 1)]), 15))
  {
    var l := (VSplit([(Leaf(SrcView), 1), (Leaf(Console), 1)]), 1);
    var r := (VSplit([(Leaf(ExpressionTable), 1), (Leaf(Terminal), 1)]), 1);
    GroupItem(s, 0, [], 1, l.0, 6);
    ParseLevelStep(s, 0, [], NoSplit, l, 7);
    assert [] + [l] == [l];
    AfterNodeContinues(s, 7, [l], NoSplit);
    GroupItem(s, 8, [], 1, r.0, 14);
    ParseLevelStep(s, 8, [l], H, r, 15);
    assert [l] + [r] == [l, r];
    AfterNodeStops(s, 15, [l, r], H);
  }

  /** The default layout: two bracketed vertical pairs side by side, every weight 1. */
  lemma DefaultLayout()
    ensures ParseResult("(1s-1c)|(1e-1t)")
         == Success(HSplit([(VSplit([(Leaf(SrcView), 1), (Leaf(Console), 1)]), 1),
                            (VSplit([(Leaf(ExpressionTable), 1), (Leaf(Terminal), 1)]), 1)]))
  {
    var s := DefaultText();
    DefaultChars(s);
    PairLevel(s, 1, SrcView, Console);
    PairLevel(s, 9, ExpressionTable, Terminal);
    DefaultOuterLevel(s);
  }

  /** Whatever follows the top-level node is not read: `s)` parses as the source view. */
  lemma TrailingTextIgnored()
    ensures ParseResult("s)") == Success(Leaf(SrcView))
  {
  }
}
