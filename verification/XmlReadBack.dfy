/**
 Whole trees read back: the parser turns the output of the compact printer into the
 normal form of the tree that was printed.
 */
module XmlReadBack {
  import opened Wrappers
  import opened XmlText
  import opened XmlDecode
  import opened XmlTree
  import opened XmlParserSpec
  import opened XmlPrinterSpec
  import opened XmlEscape
  import opened XmlRoundTrip

  // ------------------------------------------------------------- elements

  /** The loop's treatment of an element that closes properly. */
  lemma {:induction false} ElementLinked(s: string, i: nat, inDocument: bool, acc: seq<Parsed>, r: NodeResult, o: Options)
    requires i < |s| && SkipWs(s, i) == i && Identify(s, i) == (KElement, i + 1)
    requires r == ParseElement(s, i + 1, LineAt(s, i), o)
    requires r.NodeParsed? && r.closing != CLOSING && !Mismatch(s, r.node.name, r.closing, r.endTag)
    ensures ParseLoop(s, i, inDocument, acc, o)
         == ParseLoop(s, r.next, inDocument, acc + [AfterComparison(r.node, r.endTag)], o)
  {
    hide ParseElement, LineAt, Mismatch, AfterComparison, Identify, SkipWs;
    assert r == ParseNode(s, i + 1, KElement, LineAt(s, i), o);
  }

  /** An element name behind its `<` or `</`. */
  lemma {:induction false} NameBehind(s: string, i: nat, name: string)
    requires IsName(name) && Matches(s, i, name) && !IsNameChar(At(s, i + |name|))
    ensures i < |s| && SkipWs(s, i) == i && At(s, i) != '/' && IsNameStartChar(s[i])
    ensures NameEnd(s, i + 1) == i + |name|
    ensures PairValue(s, StrPair(i, i + |name|, PLAIN, true)) == name
    ensures PairValue(s, StrPair(i, i + |name|, PLAIN, false)) == name
  {
    hide PairValue, NameEnd;
    NameScanned(s, i, name);
    SkipWsAt(s, i, i);
  }

  lemma {:induction false} ClosingTagParsed(s: string, i: nat, name: string, line: nat)
    requires IsName(name) && Matches(s, i, "/" + name + ">")
    ensures var sp := StrPair(i + 1, i + 1 + |name|, PLAIN, true);
            && ParseElement(s, i, line, DEFAULT_OPTIONS)
               == NodeParsed(PElement(line, sp, [], []), CLOSING, None, i + |name| + 2)
            && PairValue(s, sp) == name
  {
    hide PairValue, NameEnd, Value, ParseAttributes, ParseLoop, SkipWs;
    MatchesConcat(s, i, "/" + name, ">");
    MatchesConcat(s, i, "/", name);
    MatchesChar(s, i, "/", 0);
    MatchesChar(s, i + 1 + |name|, ">", 0);
    SkipWsAt(s, i, i);
    NameBehind(s, i + 1, name);
    HeadEnds(s, i + 1 + |name|, line, []);
  }

  lemma {:induction false} ClosingTagRead(s: string, i: nat, name: string, inDocument: bool, acc: seq<Parsed>)
    requires IsName(name) && Matches(s, i, "</" + name + ">")
    ensures var sp := StrPair(i + 2, i + 2 + |name|, PLAIN, true);
            && ParseLoop(s, i, inDocument, acc, DEFAULT_OPTIONS) == LoopClosed(acc, sp, i + |name| + 3)
            && PairValue(s, sp) == name
  {
    hide PairValue, NameEnd, Value, ParseElement, SkipWs, LineAt;
    assert "</" + name + ">" == "<" + ("/" + name + ">");
    MatchesConcat(s, i, "<", "/" + name + ">");
    MatchesChar(s, i + 1, "/" + name + ">", 0);
    HeaderIdentified(s, i, KElement);
    ClosingTagParsed(s, i + 1, name, LineAt(s, i));
  }

  /** The pieces of a printed element around its children. */
  lemma {:induction false} ElementSplit(s: string, i: nat, n: Node)
    requires n.Element? && IsName(n.name) && Matches(s, i, PrintNode(n))
    ensures i + |PrintNode(n)| <= |s|
    ensures SkipWs(s, i) == i < |s| && Identify(s, i) == (KElement, i + 1)
    ensures Matches(s, i + 1, n.name + PrintAttributes(n.attributes))
    ensures var e := i + 1 + |n.name + PrintAttributes(n.attributes)|;
            && (n.children == [] ==> Matches(s, e, "/>") && i + |PrintNode(n)| == e + 2)
            && (n.children != [] ==>
                  var c := e + 1 + |PrintNodes(n.children)|;
                  && Matches(s, e, ">")
                  && Matches(s, e + 1, PrintNodes(n.children))
                  && Matches(s, c, "</" + n.name + ">")
                  && i + |PrintNode(n)| == c + |n.name| + 3)
  {
    hide Matches, PrintNodes, PrintAttributes, SkipWs, Identify;
    var head := n.name + PrintAttributes(n.attributes);
    var body := PrintNodes(n.children);
    var tail := if n.children == [] then "/>" else ">" + body + ("</" + n.name + ">");
    assert PrintNode(n) == "<" + head + tail;
    MatchesBounds(s, i, PrintNode(n));
    MatchesConcat(s, i, "<" + head, tail);
    MatchesConcat(s, i, "<", head);
    if n.children != [] {
      var e := i + 1 + |head|;
      MatchesConcat(s, e, ">" + body, "</" + n.name + ">");
      MatchesConcat(s, e, ">", body);
    }
    ElementHeaderIdentified(s, i, n.name, PrintAttributes(n.attributes));
  }

  lemma {:induction false} ElementHeaderIdentified(s: string, i: nat, name: string, rest: string)
    requires IsName(name) && Matches(s, i, "<") && Matches(s, i + 1, name + rest)
    ensures SkipWs(s, i) == i < |s| && Identify(s, i) == (KElement, i + 1)
  {
    MatchesChar(s, i + 1, name + rest, 0);
    HeaderIdentified(s, i, KElement);
  }

  /** The parser on an element's name and attributes, from behind the `<`. */
  lemma {:induction false} ElementHeadParsed(s: string, i: nat, n: Node, line: nat)
    returns (rs: seq<ParsedAttribute>)
    requires n.Element? && IsName(n.name) && GoodAttributes(n.attributes)
    requires Matches(s, i, n.name + PrintAttributes(n.attributes))
    requires var e := i + |n.name + PrintAttributes(n.attributes)|; Matches(s, e, ">") || Matches(s, e, "/>")
    ensures i < |s| && SkipWs(s, i) == i && At(s, i) != '/' && IsNameStartChar(s[i])
    ensures NameEnd(s, i + 1) == i + |n.name| <= |s|
    ensures PairValue(s, StrPair(i, i + |n.name|, PLAIN, true)) == n.name
    ensures PairValue(s, StrPair(i, i + |n.name|, PLAIN, false)) == n.name
    ensures DecodeAttributes(s, rs) == NormalAttributes(n.attributes)
    ensures var e := i + |n.name + PrintAttributes(n.attributes)|;
            && (Matches(s, e, ">") ==>
                  ParseAttributes(s, i + |n.name|, line, [], DEFAULT_OPTIONS) == Attributes(rs, e + 1, false))
            && (Matches(s, e, "/>") ==>
                  ParseAttributes(s, i + |n.name|, line, [], DEFAULT_OPTIONS) == Attributes(rs, e + 2, true))
  {
    hide PairValue, NameEnd, ParseAttributes, SkipWs, Normal, Escape, Matches;
    var atts := PrintAttributes(n.attributes);
    var e := i + |n.name + atts|;
    EndCharacter(s, e);
    rs := HeadRead(s, i, n.name, n.attributes, line);
    HeadEnds(s, e, line, rs);
    MatchesConcat(s, i, n.name, atts);
    AfterName(s, i, n.name, n.attributes);
    NameBehind(s, i, n.name);
  }

  lemma {:induction false} EndCharacter(s: string, e: nat)
    requires Matches(s, e, ">") || Matches(s, e, "/>")
    ensures e < |s| && (s[e] == '>' || s[e] == '/')
  {
    if Matches(s, e, ">") { MatchesChar(s, e, ">", 0); } else { MatchesChar(s, e, "/>", 0); }
  }

  lemma {:induction false} AfterName(s: string, i: nat, name: string, atts: seq<Attribute>)
    requires Matches(s, i + |name|, PrintAttributes(atts))
    requires var e := i + |name + PrintAttributes(atts)|; At(s, e) == '>' || At(s, e) == '/'
    ensures !IsNameChar(At(s, i + |name|))
  {
    if atts != [] {
      MatchesConcat(s, i + |name|, PrintAttribute(atts[0]), PrintAttributes(atts[1..]));
      MatchesChar(s, i + |name|, PrintAttribute(atts[0]), 0);
    }
  }

  // ------------------------------------------------------------- whole trees

  /** Of the nodes in front of a declaration, only blank texts and declarations are allowed. */
  predicate BeforeDeclaration(n: Node) {
    n.Declaration? || (IsPlainText(n) && Blank(n.value))
  }

  /** Declarations among `ns` may be linked in behind `acc`. */
  ghost predicate Located(inDocument: bool, acc: seq<Parsed>, ns: seq<Node>) {
    forall k | 0 <= k < |ns| && ns[k].Declaration? ::
      WellLocated(inDocument, acc) && forall j | 0 <= j < k :: BeforeDeclaration(ns[j])
  }

  /** If a text is last among the printed siblings, markup follows. */
  ghost predicate Followed(s: string, e: nat, ns: seq<Node>) {
    ns != [] && IsPlainText(ns[|ns| - 1]) ==> e + 1 < |s| && s[e] == '<'
  }

  /** Main result: printed siblings are read back as their normal form. */
  lemma {:induction false} NodesRead(s: string, i: nat, ns: seq<Node>, inDocument: bool, acc: seq<Parsed>)
    returns (rs: seq<Parsed>)
    requires AllWellFormed(ns) && Located(inDocument, acc, ns)
    requires Matches(s, i, PrintNodes(ns)) && Followed(s, i + |PrintNodes(ns)|, ns)
    ensures i + |PrintNodes(ns)| <= |s|
    ensures DecodeNodes(s, rs) == NormalNodes(ns)
    ensures ParseLoop(s, i, inDocument, acc, DEFAULT_OPTIONS)
         == ParseLoop(s, i + |PrintNodes(ns)|, inDocument, acc + rs, DEFAULT_OPTIONS)
    decreases ns, 1
  {
    hide ParseLoop, PrintNode, Escape, NormalNode, Normal, DecodeNode, Matches;
    MatchesBounds(s, i, PrintNodes(ns));
    if ns == [] {
      rs := [];
      assert acc + rs == acc;
    } else if IsPlainText(ns[0]) {
      rs := RunRead(s, i, ns, inDocument, acc);
    } else {
      MatchesConcat(s, i, PrintNode(ns[0]), PrintNodes(ns[1..]));
      var r := NodeRead(s, i, ns[0], inDocument, acc);
      assert Located(inDocument, acc + [r], ns[1..]) by { LocatedStep(inDocument, acc, r, ns); }
      var e := i + |PrintNode(ns[0])|;
      var rest := NodesRead(s, e, ns[1..], inDocument, acc + [r]);
      rs := [r] + rest;
      assert acc + rs == acc + [r] + rest;
      assert rs[1..] == rest;
    }
  }

  lemma {:induction false} LocatedStep(inDocument: bool, acc: seq<Parsed>, r: Parsed, ns: seq<Node>)
    requires ns != [] && Located(inDocument, acc, ns) && !IsPlainText(ns[0])
    requires ns[0].Declaration? ==> r.PDeclaration?
    ensures Located(inDocument, acc + [r], ns[1..])
  {
    forall k | 0 <= k < |ns[1..]| && ns[1..][k].Declaration?
      ensures WellLocated(inDocument, acc + [r]) && forall j | 0 <= j < k :: BeforeDeclaration(ns[1..][j])
    {
      assert ns[1..][k] == ns[k + 1];
      assert BeforeDeclaration(ns[0]);
      assert forall j | 0 <= j < k :: ns[1..][j] == ns[j + 1];
    }
  }

  /** A run of plain texts is one text node, or none. */
  lemma {:induction false} RunRead(s: string, i: nat, ns: seq<Node>, inDocument: bool, acc: seq<Parsed>)
    returns (rs: seq<Parsed>)
    requires ns != [] && IsPlainText(ns[0]) && AllWellFormed(ns) && Located(inDocument, acc, ns)
    requires Matches(s, i, PrintNodes(ns)) && Followed(s, i + |PrintNodes(ns)|, ns)
    ensures DecodeNodes(s, rs) == NormalNodes(ns)
    ensures i + |PrintNodes(ns)| <= |s|
    ensures ParseLoop(s, i, inDocument, acc, DEFAULT_OPTIONS)
         == ParseLoop(s, i + |PrintNodes(ns)|, inDocument, acc + rs, DEFAULT_OPTIONS)
    decreases ns, 0
  {
    hide ParseLoop, PrintNode, Escape, NormalNode, Normal, DecodeNode, Matches, PrintNodes, NormalNodes, DecodeNodes,
         Blank, Located, Followed, WellFormed, AllWellFormed, RunText;
    var m := TextRun(ns);
    var run, rest := ns[..m], ns[m..];
    var v := RunText(run);
    var e := i + |Escape(v, true)|;
    PrintRun(ns, m);
    MatchesConcat(s, i, Escape(v, true), PrintNodes(rest));
    RunFollowed(s, e, ns, m);
    RunWellFormed(ns, m);
    RunNulFree(run);
    var first := TextRead(s, i, v, inDocument, acc);
    LocatedAfterRun(s, inDocument, acc, first, ns, m);
    var second := NodesRead(s, e, rest, inDocument, acc + first);
    rs := first + second;
    DecodeNodesAppend(s, first, second);
    NormalOfRun(ns);
    assert acc + rs == acc + first + second;
  }

  lemma {:induction false} NormalOfRun(ns: seq<Node>)
    requires ns != [] && IsPlainText(ns[0])
    ensures var m := TextRun(ns);
            NormalNodes(ns) == (if Blank(RunText(ns[..m])) then [] else [Text(Normal(RunText(ns[..m])), false)])
                               + NormalNodes(ns[m..])
  {
    hide Blank, RunText, Normal, NormalNode;
  }

  /** Behind a run of texts the declarations are where they may be: if there are any, the run is blank and gone. */
  lemma {:induction false} LocatedAfterRun(s: string, inDocument: bool, acc: seq<Parsed>, first: seq<Parsed>, ns: seq<Node>, m: nat)
    requires m <= |ns| && (forall k | 0 <= k < m :: IsPlainText(ns[k])) && Located(inDocument, acc, ns)
    requires Blank(RunText(ns[..m])) ==> DecodeNodes(s, first) == []
    ensures Located(inDocument, acc + first, ns[m..])
  {
    hide Blank, WellLocated, RunText;
    forall k | 0 <= k < |ns[m..]| && ns[m..][k].Declaration?
      ensures WellLocated(inDocument, acc + first) && forall j | 0 <= j < k :: BeforeDeclaration(ns[m..][j])
    {
      assert ns[m..][k] == ns[k + m];
      assert forall j | 0 <= j < m :: BeforeDeclaration(ns[j]) && ns[..m][j] == ns[j];
      BlankRun(ns[..m]);
      assert first == [];
      assert acc + first == acc;
      assert forall j | 0 <= j < k :: ns[m..][j] == ns[j + m];
    }
  }

  lemma {:induction false} BlankRun(run: seq<Node>)
    requires forall k | 0 <= k < |run| :: IsPlainText(run[k]) && Blank(run[k].value)
    ensures Blank(RunText(run))
  {
    if run != [] {
      BlankRun(run[1..]);
    }
  }

  lemma {:induction false} RunWellFormed(ns: seq<Node>, m: nat)
    requires m <= |ns| && AllWellFormed(ns)
    ensures AllWellFormed(ns[..m]) && AllWellFormed(ns[m..])
  {
    hide WellFormed;
    if m == 0 {
      assert ns[..0] == [] && ns[0..] == ns;
    } else {
      RunWellFormed(ns[1..], m - 1);
      assert ns[..m][1..] == ns[1..][..m - 1];
      assert ns[1..][m - 1..] == ns[m..];
    }
  }

  /** What is printed behind a run of texts starts like markup. */
  lemma {:induction false} RunFollowed(s: string, e: nat, ns: seq<Node>, m: nat)
    requires 0 < m == TextRun(ns)
    requires Matches(s, e, PrintNodes(ns[m..])) && Followed(s, e + |PrintNodes(ns[m..])|, ns)
    ensures e + 1 < |s| && s[e] == '<'
    ensures Followed(s, e + |PrintNodes(ns[m..])|, ns[m..])
  {
    hide Matches, Escape;
    var rest := ns[m..];
    if rest == [] {
      assert IsPlainText(ns[m - 1]) && m == |ns|;
    } else {
      assert rest[0] == ns[m] && rest[|rest| - 1] == ns[|ns| - 1];
      MatchesConcat(s, e, PrintNode(rest[0]), PrintNodes(rest[1..]));
      MarkupStart(rest[0]);
      MatchesChar(s, e, PrintNode(rest[0]), 0);
      MatchesChar(s, e, PrintNode(rest[0]), 1);
    }
  }

  lemma {:induction false} MarkupStart(n: Node)
    requires !IsPlainText(n)
    ensures |PrintNode(n)| >= 2 && PrintNode(n)[0] == '<'
  {
    hide PrintNodes, PrintAttributes;
  }

  /** One printed node that is no plain text. */
  lemma {:induction false} NodeRead(s: string, i: nat, n: Node, inDocument: bool, acc: seq<Parsed>)
    returns (r: Parsed)
    requires WellFormed(n) && !IsPlainText(n) && Matches(s, i, PrintNode(n))
    requires n.Declaration? ==> WellLocated(inDocument, acc)
    ensures i + |PrintNode(n)| <= |s|
    ensures n.Declaration? ==> r.PDeclaration?
    ensures DecodeNode(s, r) == NormalNode(n)
    ensures ParseLoop(s, i, inDocument, acc, DEFAULT_OPTIONS)
         == ParseLoop(s, i + |PrintNode(n)|, inDocument, acc + [r], DEFAULT_OPTIONS)
    decreases n, 2
  {
    if n.Element? {
      r := ElementRead(s, i, n, inDocument, acc);
    } else {
      r := MarkupLinked(s, i, n, inDocument, acc);
    }
  }

  lemma {:induction false} MarkupLinked(s: string, i: nat, n: Node, inDocument: bool, acc: seq<Parsed>)
    returns (r: Parsed)
    requires WellFormed(n) && !n.Element? && !IsPlainText(n) && Matches(s, i, PrintNode(n))
    requires n.Declaration? ==> WellLocated(inDocument, acc)
    ensures i + |PrintNode(n)| <= |s|
    ensures n.Declaration? ==> r.PDeclaration?
    ensures DecodeNode(s, r) == NormalNode(n)
    ensures ParseLoop(s, i, inDocument, acc, DEFAULT_OPTIONS)
         == ParseLoop(s, i + |PrintNode(n)|, inDocument, acc + [r], DEFAULT_OPTIONS)
  {
    hide PairValue, Normal, ParseMarkup, LineAt, SkipWs, Identify, PrintNode, Matches, WellLocated, WellFormed, ParseElement;
    MarkupRead(s, i, n);
    var start := i + |Header(KindOf(n))|;
    r := MarkupNode(KindOf(n), LineAt(s, i), StrPair(start, start + |n.value|, MARKUP_FLAGS, true));
  }

  lemma {:induction false} ElementRead(s: string, i: nat, n: Node, inDocument: bool, acc: seq<Parsed>)
    returns (r: Parsed)
    requires n.Element? && WellFormed(n) && Matches(s, i, PrintNode(n))
    ensures i + |PrintNode(n)| <= |s|
    ensures DecodeNode(s, r) == NormalNode(n)
    ensures ParseLoop(s, i, inDocument, acc, DEFAULT_OPTIONS)
         == ParseLoop(s, i + |PrintNode(n)|, inDocument, acc + [r], DEFAULT_OPTIONS)
    decreases n, 1
  {
    hide ParseLoop, PairValue, ParseElement, SkipWs, Identify, LineAt, Matches, PrintNode, GoodAttributes;
    ElementSplit(s, i, n);
    var line := LineAt(s, i);
    var p := ElementParsed(s, i, n, line);
    ElementLinked(s, i, inDocument, acc, p, DEFAULT_OPTIONS);
    r := AfterComparison(p.node, p.endTag);
  }

  lemma {:induction false} NoNodes(s: string)
    ensures DecodeNodes(s, []) == [] && NormalNodes([]) == []
  {
  }

  lemma {:induction false} ElementParsed(s: string, i: nat, n: Node, line: nat) returns (p: NodeResult)
    requires n.Element? && WellFormed(n) && Matches(s, i, PrintNode(n))
    ensures p == ParseElement(s, i + 1, line, DEFAULT_OPTIONS)
    ensures p.NodeParsed? && p.closing != CLOSING && p.next == i + |PrintNode(n)|
    ensures p.node.PElement? && p.node.name.start <= p.node.name.end <= |s|
    ensures !Mismatch(s, p.node.name, p.closing, p.endTag)
    ensures DecodeNode(s, AfterComparison(p.node, p.endTag)) == NormalNode(n)
    decreases n, 0
  {
    hide ParseLoop, PairValue, ParseAttributes, SkipWs, Identify, LineAt, Matches, PrintNode, PrintNodes, PrintAttributes,
         NameEnd, ParseElement, GoodAttributes, Normal, DecodeNodes, NormalNodes, DecodeAttributes, NormalAttributes;
    ElementSplit(s, i, n);
    var e := i + 1 + |n.name + PrintAttributes(n.attributes)|;
    var list := ElementHeadParsed(s, i + 1, n, line);
    var name := StrPair(i + 1, i + 1 + |n.name|, PLAIN, true);
    NoNodes(s);
    if n.children == [] {
      SealedElement(s, i + 1, i + 1 + |n.name|, line, list, e);
      p := NodeParsed(PElement(line, name, list, []), CLOSED, None, e + 2);
    } else {
      var c := e + 1 + |PrintNodes(n.children)|;
      MatchesChar(s, c, "</" + n.name + ">", 0);
      MatchesChar(s, c, "</" + n.name + ">", 1);
      var rs := NodesRead(s, e + 1, n.children, false, []);
      assert [] + rs == rs;
      ClosingTagRead(s, c, n.name, false, rs);
      OpenElement(s, i + 1, i + 1 + |n.name|, line, list, e);
      p := NodeParsed(PElement(line, name, list, rs), OPEN,
                      Some(StrPair(c + 2, c + 2 + |n.name|, PLAIN, true)), c + |n.name| + 3);
    }
  }

  /** `XMLElement::ParseDeep` on a tag that ends in `/>`. */
  lemma {:induction false} SealedElement(s: string, i: nat, nameEnd: nat, line: nat, list: seq<ParsedAttribute>, e: nat)
    requires i < |s| && SkipWs(s, i) == i && At(s, i) != '/' && IsNameStartChar(s[i]) && NameEnd(s, i + 1) == nameEnd
    requires ParseAttributes(s, nameEnd, line, [], DEFAULT_OPTIONS) == Attributes(list, e + 2, true)
    ensures ParseElement(s, i, line, DEFAULT_OPTIONS)
         == NodeParsed(PElement(line, StrPair(i, nameEnd, PLAIN, true), list, []), CLOSED, None, e + 2)
  {
    hide ParseAttributes, SkipWs, NameEnd, ParseLoop;
  }

  /** `XMLElement::ParseDeep` on a start tag with more text behind it. */
  lemma {:induction false} OpenElement(s: string, i: nat, nameEnd: nat, line: nat, list: seq<ParsedAttribute>, e: nat)
    requires i < |s| && SkipWs(s, i) == i && At(s, i) != '/' && IsNameStartChar(s[i]) && NameEnd(s, i + 1) == nameEnd
    requires e + 1 < |s|
    requires ParseAttributes(s, nameEnd, line, [], DEFAULT_OPTIONS) == Attributes(list, e + 1, false)
    ensures ParseElement(s, i, line, DEFAULT_OPTIONS) ==
            match ParseLoop(s, e + 1, false, [], DEFAULT_OPTIONS)
            case LoopFailed(error, l) => NodeFailed(Some(error), l)
            case LoopEnded(_) => NodeFailed(None, line)
            case LoopClosed(children, endTag, after) =>
              NodeParsed(PElement(line, StrPair(i, nameEnd, PLAIN, true), list, children), OPEN, Some(endTag), after)
  {
    hide ParseAttributes, SkipWs, NameEnd, ParseLoop;
  }
}
