/**
 Whatever the parser accepts, it builds a well-formed tree: names are names, attribute
 names are distinct, no body contains its own end tag and declarations come first.
 */
module XmlParserOutput {
  import opened Wrappers
  import opened XmlText
  import opened XmlDecode
  import opened XmlTree
  import opened XmlParserSpec
  import opened XmlPrinterSpec
  import opened XmlEscape

  // ------------------------------------------------------------- newline normalisation keeps text free of tags

  lemma {:induction false} NeverStale(v: string, p: nat, q: nat)
    requires q <= p <= |v|
    ensures StaleBytesAreAmpersands(v, p, q, MARKUP_FLAGS)
    decreases |v| - p
  {
    if p < |v| {
      var st := DecodeStep(v, p, MARKUP_FLAGS);
      NeverStale(v, st.next, q + |st.bytes|);
    }
  }

  lemma {:induction false} NormalIsIdeal(v: string)
    ensures Normal(v) == IdealFrom(v, 0, MARKUP_FLAGS)
  {
    NeverStale(v, 0, 0);
    DecodedIsIdeal(v, MARKUP_FLAGS);
  }

  predicate OneLine(w: string) {
    forall k | 0 <= k < |w| :: w[k] != LF && w[k] != CR
  }

  /** A newline-free text at the front of the normalised rest is there before normalisation. */
  lemma {:induction false} PrefixOfNormal(v: string, p: nat, w: string)
    requires p <= |v| && OneLine(w) && Matches(IdealFrom(v, p, MARKUP_FLAGS), 0, w)
    ensures Matches(v, p, w)
    decreases |w|
  {
    hide Matches, DecodeStep, IdealFrom;
    var r := IdealFrom(v, p, MARKUP_FLAGS);
    if w == "" {
      NothingMatches(v, p);
    } else {
      MatchesChar(r, 0, w, 0);
      NormalHead(v, p, w[0]);
      var rest := IdealFrom(v, p + 1, MARKUP_FLAGS);
      assert w == [w[0]] + w[1..];
      MatchesConcat(r, 0, [w[0]], w[1..]);
      MatchesBehind(w[0], rest, w[1..]);
      PrefixOfNormal(v, p + 1, w[1..]);
      OneMatches(v, p, w[0]);
      MatchesConcat(v, p, [w[0]], w[1..]);
    }
  }

  lemma NothingMatches(v: string, p: nat)
    requires p <= |v|
    ensures Matches(v, p, "")
  {
    assert v[p..p] == "";
  }

  lemma OneMatches(v: string, p: nat, c: char)
    requires p < |v| && v[p] == c
    ensures Matches(v, p, [c])
  {
    assert v[p..p + 1] == [c];
  }

  lemma MatchesBehind(c: char, rest: string, w: string)
    requires Matches([c] + rest, 1, w)
    ensures Matches(rest, 0, w)
  {
    assert ([c] + rest)[1..1 + |w|] == rest[0..|w|];
  }

  /** What is no line end at the front of the normalised rest was there before. */
  lemma NormalHead(v: string, p: nat, c: char)
    requires p <= |v| && c != LF && c != CR && |IdealFrom(v, p, MARKUP_FLAGS)| > 0 && IdealFrom(v, p, MARKUP_FLAGS)[0] == c
    ensures p < |v| && v[p] == c && IdealFrom(v, p, MARKUP_FLAGS) == [c] + IdealFrom(v, p + 1, MARKUP_FLAGS)
  {
    var st := DecodeStep(v, p, MARKUP_FLAGS);
    assert IdealFrom(v, p, MARKUP_FLAGS) == st.bytes + IdealFrom(v, st.next, MARKUP_FLAGS);
    assert st == Step(p + 1, [v[p]], false);
  }

  lemma {:induction false} NormalFreeFrom(v: string, p: nat, w: string, k: nat)
    requires p <= |v| && OneLine(w) && w != ""
    requires forall m | p <= m < |v| :: !Matches(v, m, w)
    ensures !Matches(IdealFrom(v, p, MARKUP_FLAGS), k, w)
    decreases |v| - p
  {
    var r := IdealFrom(v, p, MARKUP_FLAGS);
    if k == 0 {
      if Matches(r, 0, w) {
        PrefixOfNormal(v, p, w);
        assert false;
      }
    } else if p < |v| {
      var st := DecodeStep(v, p, MARKUP_FLAGS);
      NormalStep(v, p);
      var rest := IdealFrom(v, st.next, MARKUP_FLAGS);
      NormalFreeFrom(v, st.next, w, k - 1);
      assert r == st.bytes + rest;
      if k + |w| <= |r| {
        assert r[k..k + |w|] == rest[k - 1..k - 1 + |w|];
      }
    }
  }

  lemma {:induction false} NormalFree(v: string, tag: string)
    requires OneLine(tag) && tag != "" && Free(v, tag)
    ensures Free(Normal(v), tag)
  {
    NormalIsIdeal(v);
    forall k | 0 <= k < |Normal(v)| ensures !Matches(Normal(v), k, tag) {
      NormalFreeFrom(v, 0, tag, k);
    }
  }

  lemma {:induction false} NormalPrefixFree(v: string, w: string)
    requires OneLine(w) && !Matches(v, 0, w)
    ensures !Matches(Normal(v), 0, w)
  {
    NormalIsIdeal(v);
    if Matches(Normal(v), 0, w) {
      PrefixOfNormal(v, 0, w);
      assert false;
    }
  }

  // ------------------------------------------------------------- names and attributes

  lemma {:induction false} ParsedName(s: string, i: nat, flush: bool)
    requires i < |s| && IsNameStartChar(s[i])
    ensures IsName(PairValue(s, StrPair(i, NameEnd(s, i + 1), PLAIN, flush)))
  {
    var e := NameEnd(s, i + 1);
    var name := s[i..e];
    assert name[0] == s[i];
    forall k | 0 <= k < |name| ensures IsNameChar(name[k]) {
      assert name[k] == s[i + k];
    }
    CStrOfNulFree(name);
  }

  lemma {:induction false} AttributeWellFormed(s: string, i: nat, o: Options)
    requires i < |s| && IsNameStartChar(s[i])
    requires ParseAttribute(s, i, o).OneAttribute?
    ensures IsName(PairValue(s, ParseAttribute(s, i, o).attribute.name))
  {
    hide FindTag, SkipWs, NameEnd, LineAt, PairValue;
    ParsedName(s, i, false);
  }

  lemma {:induction false} AttributeAdded(s: string, acc: seq<ParsedAttribute>, a: ParsedAttribute)
    requires GoodAttributes(DecodeAttributes(s, acc))
    requires IsName(PairValue(s, a.name)) && !HasAttribute(s, acc, PairValue(s, a.name))
    ensures GoodAttributes(DecodeAttributes(s, acc + [a]))
  {
    hide IsName, Value;
    var d := DecodeAttributes(s, acc);
    DecodeAttributesAppend(s, acc, [a]);
    assert DecodeAttributes(s, [a]) == [Attribute(PairValue(s, a.name), PairValue(s, a.value))] by {
      assert [a][1..] == [];
    }
    DecodedNames(s, acc);
  }

  lemma {:induction false} DecodedNames(s: string, acc: seq<ParsedAttribute>)
    ensures forall k | 0 <= k < |acc| :: DecodeAttributes(s, acc)[k].name == PairValue(s, acc[k].name)
  {
    hide PairValue;
    if acc != [] {
      DecodedNames(s, acc[1..]);
      forall k | 0 <= k < |acc| ensures DecodeAttributes(s, acc)[k].name == PairValue(s, acc[k].name) {
        if k > 0 { assert acc[k] == acc[1..][k - 1]; }
      }
    }
  }

  lemma {:induction false} AttributesWellFormed(s: string, i: nat, line: nat, acc: seq<ParsedAttribute>, o: Options)
    requires i <= |s| && GoodAttributes(DecodeAttributes(s, acc))
    ensures var r := ParseAttributes(s, i, line, acc, o);
            r.Attributes? ==> GoodAttributes(DecodeAttributes(s, r.list))
    decreases |s| - i
  {
    hide PairValue, ParseAttribute, GoodAttributes, DecodeAttributes, HasAttribute, SkipWs, LineAt;
    var j := SkipWs(s, i);
    if j < |s| && IsNameStartChar(s[j]) {
      var r := ParseAttribute(s, j, o);
      if r.OneAttribute? && !HasAttribute(s, acc, PairValue(s, r.attribute.name)) {
        AttributeWellFormed(s, j, o);
        AttributeAdded(s, acc, r.attribute);
        AttributesWellFormed(s, r.next, line, acc + [r.attribute], o);
      }
    }
  }

  // ------------------------------------------------------------- nodes

  /** A body scanned to its end tag does not contain the tag, nor does its value. */
  lemma {:induction false} BodyFree(s: string, i: nat, j: nat, tag: string)
    requires NulFree(s) && i <= j <= |s| && tag != "" && OneLine(tag)
    requires forall k | i <= k < j :: !Matches(s, k, tag)
    ensures PairValue(s, StrPair(i, j, MARKUP_FLAGS, true)) == Normal(s[i..j])
    ensures Free(Normal(s[i..j]), tag) && NulFree(Normal(s[i..j]))
  {
    var v := s[i..j];
    ValueOfMarkup(v);
    assert NulFree(Value(v, MARKUP_FLAGS));
    forall k | 0 <= k < |v| ensures !Matches(v, k, tag) {
      if k + |tag| <= |v| {
        MatchesInside(s, i, v, k, tag);
      }
    }
    NormalFree(v, tag);
  }

  lemma {:induction false} MarkupWellFormed(s: string, i: nat, kind: Kind, line: nat)
    requires NulFree(s) && i <= |s| && !kind.KText? && !kind.KElement?
    requires kind.KUnknown? ==> !Matches(s, i, "--") && !Matches(s, i, "[CDATA[")
    ensures var r := ParseMarkup(s, i, kind, line);
            r.NodeParsed? ==> WellFormed(DecodeNode(s, r.node)) && (r.node.PDeclaration? <==> kind.KDeclaration?)
  {
    hide PairValue, Normal, Free, FindTag;
    var tag := EndTagOf(kind);
    var r := FindTag(s, i, tag);
    if r.Some? {
      var j := r.value;
      BodyFree(s, i, j, tag);
      if kind.KUnknown? {
        BodyApart(s, i, j, "--");
        BodyApart(s, i, j, "[CDATA[");
      }
    }
  }

  lemma {:induction false} BodyApart(s: string, i: nat, j: nat, w: string)
    requires i <= j <= |s| && OneLine(w) && !Matches(s, i, w)
    ensures !Matches(Normal(s[i..j]), 0, w)
  {
    var v := s[i..j];
    if |w| <= |v| {
      MatchesInside(s, i, v, 0, w);
    }
    NormalPrefixFree(v, w);
  }

  /** An unknown is not the longer header of a comment or a CDATA section. */
  lemma {:induction false} UnknownApart(s: string, i: nat)
    requires i <= |s| && SkipWs(s, i) < |s| && Identify(s, i).0.KUnknown?
    ensures var start := Identify(s, i).1; !Matches(s, start, "--") && !Matches(s, start, "[CDATA[")
  {
    var p := SkipWs(s, i);
    assert "<!" + "--" == "<!--" && "<!" + "[CDATA[" == "<![CDATA[";
    MatchesConcat(s, p, "<!", "--");
    MatchesConcat(s, p, "<!", "[CDATA[");
  }

  /** What the children linked in so far decode to. */
  ghost predicate GoodNodes(s: string, inDocument: bool, acc: seq<Parsed>) {
    && AllWellFormed(DecodeNodes(s, acc))
    && (if inDocument then forall i, j | 0 <= i < j < |acc| && acc[j].PDeclaration? :: acc[i].PDeclaration?
        else forall k | 0 <= k < |acc| :: !acc[k].PDeclaration?)
  }

  lemma {:induction false} AllWellFormedAppend(a: seq<Node>, b: seq<Node>)
    requires AllWellFormed(a) && AllWellFormed(b)
    ensures AllWellFormed(a + b)
  {
    hide WellFormed;
    if a == [] {
      assert a + b == b;
    } else {
      assert (a + b)[0] == a[0] && (a + b)[1..] == a[1..] + b;
      AllWellFormedAppend(a[1..], b);
    }
  }

  lemma {:induction false} NodeAdded(s: string, inDocument: bool, acc: seq<Parsed>, n: Parsed)
    requires GoodNodes(s, inDocument, acc) && WellFormed(DecodeNode(s, n))
    requires n.PDeclaration? ==> WellLocated(inDocument, acc)
    ensures GoodNodes(s, inDocument, acc + [n])
  {
    hide WellFormed, DecodeNode;
    var d := DecodeNode(s, n);
    assert DecodeNodes(s, [n]) == [d] by { assert [n][1..] == []; }
    DecodeNodesAppend(s, acc, [n]);
    assert AllWellFormed([d]) by { assert [d][1..] == []; }
    AllWellFormedAppend(DecodeNodes(s, acc), [d]);
  }

  lemma {:induction false} DeclarationsDecoded(s: string, ns: seq<Parsed>, k: nat)
    requires k < |ns|
    ensures DecodeNodes(s, ns)[k] == DecodeNode(s, ns[k])
    ensures DecodeNodes(s, ns)[k].Declaration? <==> ns[k].PDeclaration?
  {
    hide PairValue;
    if k > 0 {
      DeclarationsDecoded(s, ns[1..], k - 1);
    }
  }

  lemma {:induction false} ElementWellFormed(s: string, i: nat, line: nat, o: Options)
    requires NulFree(s) && i <= |s|
    ensures var r := ParseElement(s, i, line, o);
            r.NodeParsed? ==> WellFormed(DecodeNode(s, r.node))
    decreases |s| - i, 0
  {
    hide ParseAttributes, GoodAttributes, SkipWs, NameEnd, LineAt, PairValue, IsName, ParseLoop, GoodNodes,
         DecodeNodes, DecodeAttributes, AllWellFormed;
    var j := SkipWs(s, i);
    var start := if At(s, j) == '/' then j + 1 else j;
    if start < |s| && IsNameStartChar(s[start]) {
      var e := NameEnd(s, start + 1);
      ParsedName(s, start, true);
      NothingGood(s);
      AttributesWellFormed(s, e, line, [], o);
      var a := ParseAttributes(s, e, line, [], o);
      var name := StrPair(start, e, PLAIN, true);
      if a.Attributes? {
        ElementFromParts(s, line, name, a.list, []);
        LoopWellFormed(s, a.next, false, [], o);
        var c := ParseLoop(s, a.next, false, [], o);
        if c.LoopClosed? {
          ElementFromParts(s, line, name, a.list, c.nodes);
        }
      }
    }
  }

  lemma {:induction false} NothingGood(s: string)
    ensures GoodAttributes(DecodeAttributes(s, [])) && GoodNodes(s, false, []) && GoodNodes(s, true, [])
  {
  }

  lemma {:induction false} ElementFromParts(s: string, line: nat, name: StrPair, list: seq<ParsedAttribute>, children: seq<Parsed>)
    requires IsName(PairValue(s, name)) && GoodAttributes(DecodeAttributes(s, list)) && GoodNodes(s, false, children)
    ensures WellFormed(DecodeNode(s, PElement(line, name, list, children)))
  {
    hide GoodAttributes, IsName, Value, DecodeAttributes;
    assert NulFree(PairValue(s, name));
    forall k | 0 <= k < |children| ensures !DecodeNodes(s, children)[k].Declaration? {
      DeclarationsDecoded(s, children, k);
    }
  }

  lemma {:induction false} NodeWellFormed(s: string, i: nat, line: nat, o: Options)
    requires NulFree(s) && i <= |s| && SkipWs(s, i) < |s|
    ensures var (kind, start) := Identify(s, i);
            var r := ParseNode(s, start, kind, line, o);
            r.NodeParsed? ==> WellFormed(DecodeNode(s, r.node))
    decreases |s| - i, 1
  {
    hide PairValue, SkipWs, ParseMarkup, ParseElement, Identify, WellFormed, FindTag;
    var (kind, start) := Identify(s, i);
    match kind
    case KElement =>
      ElementWellFormed(s, start, line, o);
    case KText =>
      PlainTextWellFormed(s, start, line, o);
    case _ =>
      if kind.KUnknown? { UnknownApart(s, i); }
      MarkupWellFormed(s, start, kind, line);
  }

  lemma {:induction false} PlainTextWellFormed(s: string, i: nat, line: nat, o: Options)
    requires i <= |s| && SkipWs(s, i) < |s| && s[SkipWs(s, i)] != '<'
    ensures var r := ParsePlainText(s, i, line, o);
            r.NodeParsed? ==> WellFormed(DecodeNode(s, r.node))
  {
    hide SkipWs, FindTag, Value;
  }

  lemma {:induction false} ComparisonKeeps(s: string, n: Parsed, endTag: Option<StrPair>)
    ensures DecodeNode(s, AfterComparison(n, endTag)) == DecodeNode(s, n)
    ensures AfterComparison(n, endTag).PDeclaration? <==> n.PDeclaration?
  {
    hide Value, DecodeNodes, DecodeAttributes;
  }

  /** Main result: every list of children the loop builds is well-formed. */
  lemma {:induction false} LoopWellFormed(s: string, i: nat, inDocument: bool, acc: seq<Parsed>, o: Options)
    requires NulFree(s) && i <= |s| && GoodNodes(s, inDocument, acc)
    ensures var r := ParseLoop(s, i, inDocument, acc, o);
            r.LoopEnded? || r.LoopClosed? ==> GoodNodes(s, inDocument, r.nodes)
    decreases |s| - i, 2
  {
    hide ParseNode, GoodNodes, WellFormed, DecodeNode, Identify, SkipWs, LineAt, AfterComparison, Mismatch, WellLocated;
    var j := SkipWs(s, i);
    if j < |s| {
      var (kind, start) := Identify(s, i);
      var r := ParseNode(s, start, kind, LineAt(s, j), o);
      NodeWellFormed(s, i, LineAt(s, j), o);
      if r.NodeParsed? {
        var n := AfterComparison(r.node, r.endTag);
        ComparisonKeeps(s, r.node, r.endTag);
        if r.node.PDeclaration? ==> WellLocated(inDocument, acc) {
          NodeAdded(s, inDocument, acc, n);
          LoopWellFormed(s, r.next, inDocument, acc + [n], o);
        }
      }
    }
  }

  /** Every document the parser accepts is well-formed. */
  lemma {:induction false} ReadIsWellFormed(s: string, o: Options)
    requires NulFree(s) && ReadDocument(s, o).Read?
    ensures WellFormedDocument(ReadDocument(s, o).document)
  {
    hide ParseLoop, SkipWs, DecodeNodes, AllWellFormed;
    var i := SkipWs(s, 0);
    var p := if Matches(s, i, BOM) then i + 3 else i;
    NothingGood(s);
    LoopWellFormed(s, p, true, [], o);
    var nodes := ParseDocument(s, o).nodes;
    var ns := DecodeNodes(s, nodes);
    forall i, j | 0 <= i < j < |ns| && ns[j].Declaration? ensures ns[i].Declaration? {
      DeclarationsDecoded(s, nodes, i);
      DeclarationsDecoded(s, nodes, j);
    }
  }
}
