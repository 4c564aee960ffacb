/**
 Where the strings of a parsed tree lie in the text: in document order, one behind the
 other, with at least one byte of markup after each.  So terminating and decoding one of
 them in place never touches another.
 */
module XmlLayout {
  import opened Wrappers
  import opened XmlText
  import opened XmlDecode
  import opened XmlTree
  import opened XmlParserSpec

  ghost predicate InRange(ps: seq<StrPair>, lo: nat, hi: nat) {
    forall k | 0 <= k < |ps| :: lo <= ps[k].start <= ps[k].end < hi
  }

  /** Each pair ends, with its terminator, before the next one starts. */
  ghost predicate Ordered(ps: seq<StrPair>) {
    forall j, k | 0 <= j < k < |ps| :: ps[j].end < ps[k].start
  }

  /** The pairs of a piece of the tree that lies within `lo..hi`. */
  ghost predicate LaidOut(ps: seq<StrPair>, lo: nat, hi: nat) {
    InRange(ps, lo, hi) && Ordered(ps)
  }

  lemma {:induction false} LaidOutConcat(a: seq<StrPair>, b: seq<StrPair>, lo: nat, mid: nat, mid': nat, hi: nat)
    requires LaidOut(a, lo, mid) && LaidOut(b, mid', hi) && lo <= mid <= mid' <= hi
    ensures LaidOut(a + b, lo, hi)
  {
  }

  lemma {:induction false} LaidOutOne(sp: StrPair, lo: nat, hi: nat)
    requires lo <= sp.start <= sp.end < hi
    ensures LaidOut([sp], lo, hi)
  {
  }

  lemma {:induction false} AttributesLaidOut(s: string, i: nat, line: nat, acc: seq<ParsedAttribute>, o: Options, lo: nat)
    requires lo <= i <= |s| && LaidOut(AttributePairs(acc), lo, i)
    ensures var r := ParseAttributes(s, i, line, acc, o);
            r.Attributes? ==> LaidOut(AttributePairs(r.list), lo, r.next)
    decreases |s| - i
  {
    hide ParseAttribute, PairValue, HasAttribute, SkipWs, LineAt, LaidOut, AttributePairs;
    var j := SkipWs(s, i);
    LaidOutWider(AttributePairs(acc), lo, i, j);
    if j < |s| {
      if IsNameStartChar(s[j]) {
        var r := ParseAttribute(s, j, o);
        if r.OneAttribute? && !HasAttribute(s, acc, PairValue(s, r.attribute.name)) {
          AttributeLinked(acc, r.attribute, lo, j, r.next);
          AttributesLaidOut(s, r.next, line, acc + [r.attribute], o, lo);
        }
      } else {
        LaidOutWider(AttributePairs(acc), lo, i, j + 1);
        LaidOutWider(AttributePairs(acc), lo, i, j + 2);
      }
    }
  }

  lemma {:induction false} LaidOutWider(ps: seq<StrPair>, lo: nat, hi: nat, hi': nat)
    requires LaidOut(ps, lo, hi) && hi <= hi'
    ensures LaidOut(ps, lo, hi')
  {
  }

  lemma {:induction false} AttributeLinked(acc: seq<ParsedAttribute>, a: ParsedAttribute, lo: nat, i: nat, next: nat)
    requires lo <= i && LaidOut(AttributePairs(acc), lo, i)
    requires i <= a.name.start <= a.name.end < a.value.start <= a.value.end < next
    ensures LaidOut(AttributePairs(acc + [a]), lo, next)
  {
    hide AttributePairs, LaidOut;
    AttributePairsAppend(acc, [a]);
    OnePairs(a);
    TwoLaidOut(a, i, next);
    LaidOutConcat(AttributePairs(acc), [a.name, a.value], lo, i, i, next);
  }

  lemma OnePairs(a: ParsedAttribute)
    ensures AttributePairs([a]) == [a.name, a.value]
  {
    assert [a][1..] == [];
  }

  lemma TwoLaidOut(a: ParsedAttribute, i: nat, next: nat)
    requires i <= a.name.start <= a.name.end < a.value.start <= a.value.end < next
    ensures LaidOut([a.name, a.value], i, next)
  {
  }

  lemma {:induction false} NoPairs(lo: nat, hi: nat)
    ensures LaidOut([], lo, hi) && AttributePairs([]) == [] && AllPairs([]) == []
  {
  }

  lemma {:induction false} ElementPairs(line: nat, name: StrPair, list: seq<ParsedAttribute>, children: seq<Parsed>,
                                        lo: nat, a: nat, c: nat, hi: nat)
    requires lo <= name.start <= name.end < a <= c <= hi
    requires LaidOut(AttributePairs(list), a, c) && LaidOut(AllPairs(children), c, hi)
    ensures LaidOut(Pairs(PElement(line, name, list, children)), lo, hi)
  {
    hide AttributePairs, AllPairs, LaidOut;
    LaidOutOne(name, lo, a);
    LaidOutConcat([name], AttributePairs(list), lo, a, a, c);
    LaidOutConcat([name] + AttributePairs(list), AllPairs(children), lo, c, c, hi);
  }

  lemma {:induction false} AttributeSectionLaidOut(s: string, e: nat, line: nat, o: Options)
    requires e < |s|
    requires !IsNameChar(s[e])
    ensures var r := ParseAttributes(s, e, line, [], o);
            r.Attributes? ==> LaidOut(AttributePairs(r.list), e + 1, r.next)
  {
    var j := SkipWs(s, e);
    NoPairs(e, e);
    if j == e {
      // no attribute can start here
      NoPairs(e + 1, e + 1);
      NoPairs(e + 1, e + 2);
    } else {
      assert SkipWs(s, e + 1) == j;
      NoPairs(e + 1, e + 1);
      AttributesLaidOut(s, e + 1, line, [], o, e + 1);
    }
  }

  lemma {:induction false} ElementLaidOut(s: string, i: nat, line: nat, o: Options)
    requires i <= |s|
    ensures var r := ParseElement(s, i, line, o);
            r.NodeParsed? ==>
              && LaidOut(Pairs(r.node), i, r.next)
              && (r.endTag.Some? ==> i <= r.endTag.value.start <= r.endTag.value.end < r.next
                                     && LaidOut(Pairs(r.node), i, r.endTag.value.start))
    decreases |s| - i, 0
  {
    hide ParseAttributes, SkipWs, NameEnd, LineAt, ParseLoop, LaidOut, Pairs, AllPairs, AttributePairs;
    var j := SkipWs(s, i);
    var start := if At(s, j) == '/' then j + 1 else j;
    if start < |s| && IsNameStartChar(s[start]) {
      var e := NameEnd(s, start + 1);
      var name := StrPair(start, e, PLAIN, true);
      var a := ParseAttributes(s, e, line, [], o);
      if a.Attributes? {
        AttributesNeedMore(s, e, line, o);
        AttributeSectionLaidOut(s, e, line, o);
        NoPairs(a.next, a.next);
        NoPairs(a.next, Bound(s, a.next));
        ElementPairs(line, name, a.list, [], i, e + 1, a.next, a.next);
        LoopLaidOut(s, a.next, false, [], o, a.next);
        var c := ParseLoop(s, a.next, false, [], o);
        if c.LoopClosed? {
          ElementPairs(line, name, a.list, c.nodes, i, e + 1, a.next, c.endTag.start);
          LaidOutWider(Pairs(PElement(line, name, a.list, c.nodes)), i, c.endTag.start, c.next);
        }
      }
    }
  }

  lemma {:induction false} AttributesNeedMore(s: string, e: nat, line: nat, o: Options)
    requires e <= |s|
    ensures ParseAttributes(s, e, line, [], o).Attributes? ==> e + 1 <= ParseAttributes(s, e, line, [], o).next && e < |s|
  {
    hide ParseAttribute, PairValue;
  }

  /**
   Where the pairs behind offset `i` may start: a text ends on the `<` that follows it,
   so behind one they start after that `<`.
   */
  function Bound(s: string, i: nat): nat {
    if At(s, i) == '<' then i + 1 else i
  }

  lemma {:induction false} NodeLaidOut(s: string, i: nat, line: nat, o: Options)
    requires i <= |s| && SkipWs(s, i) < |s|
    ensures var (kind, start) := Identify(s, i);
            var r := ParseNode(s, start, kind, line, o);
            r.NodeParsed? ==>
              && LaidOut(Pairs(r.node), Bound(s, i), Bound(s, r.next))
              && (r.node.PElement? ==> Bound(s, i) <= r.node.name.start)
              && (r.endTag.Some? ==>
                    Bound(s, i) <= r.endTag.value.start <= r.endTag.value.end < r.next
                    && LaidOut(Pairs(r.node), Bound(s, i), r.endTag.value.start))
    decreases |s| - i, 1
  {
    hide ParseElement, FindTag, LaidOut, Pairs, Identify, ParseMarkup, ParsePlainText, SkipWs;
    var (kind, start) := Identify(s, i);
    var r := ParseNode(s, start, kind, line, o);
    StartsBehind(s, i);
    if r.NodeParsed? {
      if kind.KElement? {
        ElementLaidOut(s, start, line, o);
        LaidOutNarrower(Pairs(r.node), start, r.next, Bound(s, i), Bound(s, r.next));
        if r.endTag.Some? {
          LaidOutNarrower(Pairs(r.node), start, r.endTag.value.start, Bound(s, i), r.endTag.value.start);
        }
      } else {
        LeafLaidOut(s, start, kind, line, o);
        LaidOutNarrower(Pairs(r.node), start, Bound(s, r.next), Bound(s, i), Bound(s, r.next));
      }
    }
  }

  lemma {:induction false} LaidOutNarrower(ps: seq<StrPair>, lo: nat, hi: nat, lo': nat, hi': nat)
    requires LaidOut(ps, lo, hi) && lo' <= lo && hi <= hi'
    ensures LaidOut(ps, lo', hi')
  {
  }

  lemma {:induction false} StartsBehind(s: string, i: nat)
    requires i <= |s| && SkipWs(s, i) < |s|
    ensures Bound(s, i) <= Identify(s, i).1
  {
    var p := SkipWs(s, i);
    if At(s, i) == '<' {
      SkipWsAt(s, i, i);
      assert s[i..i + 1] == "<";
    }
  }

  lemma {:induction false} LeafLaidOut(s: string, i: nat, kind: Kind, line: nat, o: Options)
    requires i <= |s| && !kind.KElement? && (kind.KText? ==> SkipWs(s, i) < |s| && s[SkipWs(s, i)] != '<')
    ensures var r := ParseNode(s, i, kind, line, o);
            r.NodeParsed? ==> r.endTag.None? && LaidOut(Pairs(r.node), i, Bound(s, r.next))
  {
    hide SkipWs, FindTag;
    var r := ParseNode(s, i, kind, line, o);
    if r.NodeParsed? && kind.KText? {
      MatchesChar(s, r.next, "<", 0);
    }
  }

  lemma {:induction false} ChildLinked(acc: seq<Parsed>, n: Parsed, lo: nat, mid: nat, hi: nat)
    requires lo <= mid <= hi && LaidOut(AllPairs(acc), lo, mid) && LaidOut(Pairs(n), mid, hi)
    ensures LaidOut(AllPairs(acc + [n]), lo, hi)
  {
    hide LaidOut, Pairs;
    AllPairsAppend(acc, [n]);
    assert AllPairs([n]) == Pairs(n) by { assert [n][1..] == []; }
    LaidOutConcat(AllPairs(acc), Pairs(n), lo, mid, mid, hi);
  }

  /** Comparing the names moves no pair. */
  lemma {:induction false} ComparisonKeepsLayout(n: Parsed, endTag: Option<StrPair>, lo: nat, hi: nat)
    requires LaidOut(Pairs(n), lo, hi)
    ensures LaidOut(Pairs(AfterComparison(n, endTag)), lo, hi)
  {
    hide AttributePairs, AllPairs;
    var m := AfterComparison(n, endTag);
    assert |Pairs(m)| == |Pairs(n)|;
    forall k | 0 <= k < |Pairs(m)|
      ensures Pairs(m)[k].start == Pairs(n)[k].start && Pairs(m)[k].end == Pairs(n)[k].end
    {
    }
  }

  /** Main result: the strings of all children lie in order. */
  lemma {:induction false} LoopLaidOut(s: string, i: nat, inDocument: bool, acc: seq<Parsed>, o: Options, lo: nat)
    requires lo <= i <= |s| && LaidOut(AllPairs(acc), lo, Bound(s, i))
    ensures match ParseLoop(s, i, inDocument, acc, o)
            case LoopFailed(_, _) => true
            case LoopEnded(nodes) => LaidOut(AllPairs(nodes), lo, |s| + 1)
            case LoopClosed(nodes, endTag, next) =>
              LaidOut(AllPairs(nodes), lo, endTag.start) && endTag.start <= endTag.end < next
    decreases |s| - i, 2
  {
    hide ParseNode, Identify, SkipWs, LineAt, AfterComparison, Mismatch, WellLocated, LaidOut, Pairs, AllPairs;
    var j := SkipWs(s, i);
    if j == |s| {
      LaidOutWider(AllPairs(acc), lo, Bound(s, i), |s| + 1);
    } else {
      var (kind, start) := Identify(s, i);
      var line := LineAt(s, j);
      var r := ParseNode(s, start, kind, line, o);
      NodeLaidOut(s, i, line, o);
      if r.NodeParsed? {
        if r.node.PElement? && r.closing == CLOSING {
          LaidOutWider(AllPairs(acc), lo, Bound(s, i), r.node.name.start);
          NameInside(s, start, kind, line, o);
        } else {
          var n := AfterComparison(r.node, r.endTag);
          ComparisonKeepsLayout(r.node, r.endTag, Bound(s, i), Bound(s, r.next));
          ChildLinked(acc, n, lo, Bound(s, i), Bound(s, r.next));
          LoopLaidOut(s, r.next, inDocument, acc + [n], o, lo);
        }
      }
    }
  }

  lemma {:induction false} NameInside(s: string, i: nat, kind: Kind, line: nat, o: Options)
    requires i <= |s| && kind.KElement?
    ensures var r := ParseNode(s, i, kind, line, o);
            r.NodeParsed? ==> r.node.name.end < r.next
    decreases |s| - i, 1
  {
    hide ParseElement;
    ElementLaidOut(s, i, line, o);
    var r := ParseNode(s, i, kind, line, o);
    if r.NodeParsed? {
      assert Pairs(r.node)[0] == r.node.name;
    }
  }
}
