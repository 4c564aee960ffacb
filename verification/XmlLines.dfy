/**
 The line numbers of a parsed tree: each node and each attribute remembers the line it is in.
 */
module XmlLines {
  import opened Wrappers
  import opened XmlText
  import opened XmlDecode
  import opened XmlTree
  import opened XmlParserSpec

  /** The last `<` in front of `start` is at `p`. */
  predicate Opened(s: string, p: nat, start: nat) {
    p < start <= |s| && s[p] == '<' && forall k | p < k < start :: s[k] != '<'
  }

  /** Markup whose name or value begins at `start` has its `<` in that line. */
  ghost predicate OpenedIn(s: string, start: nat, line: nat) {
    exists p | 0 <= p < |s| && Opened(s, p, start) :: line == LineAt(s, p)
  }

  /** An attribute is in the line of its name. */
  ghost predicate AttributesInLine(s: string, atts: seq<ParsedAttribute>) {
    forall k | 0 <= k < |atts| :: atts[k].name.start <= |s| && atts[k].line == LineAt(s, atts[k].name.start)
  }

  /** Markup is in the line of its `<`, a text in that of its first character that is not whitespace. */
  ghost predicate InLine(s: string, n: Parsed)
    decreases n, 1
  {
    match n
    case PElement(line, name, atts, children) => OpenedIn(s, name.start, line) && AttributesInLine(s, atts) && AllInLine(s, children)
    case PText(line, v, cdata) =>
      if cdata then OpenedIn(s, v.start, line)
      else v.start <= |s| && SkipWs(s, v.start) < |s| && line == LineAt(s, SkipWs(s, v.start))
    case PComment(line, v) => OpenedIn(s, v.start, line)
    case PDeclaration(line, v) => OpenedIn(s, v.start, line)
    case PUnknown(line, v) => OpenedIn(s, v.start, line)
  }

  ghost predicate AllInLine(s: string, ns: seq<Parsed>)
    decreases ns, 0
  {
    ns != [] ==> InLine(s, ns[0]) && AllInLine(s, ns[1..])
  }

  lemma {:induction false} AppendInLine(s: string, acc: seq<Parsed>, n: Parsed)
    requires AllInLine(s, acc) && InLine(s, n)
    ensures AllInLine(s, acc + [n])
  {
    hide InLine;
    if acc == [] {
      assert [n][1..] == [];
    } else {
      AppendInLine(s, acc[1..], n);
      assert (acc + [n])[1..] == acc[1..] + [n];
    }
  }

  lemma NoneInLine(s: string)
    ensures AttributesInLine(s, []) && AllInLine(s, [])
  {
  }

  lemma {:induction false} AttributesRecorded(s: string, i: nat, line: nat, acc: seq<ParsedAttribute>, o: Options)
    requires i <= |s| && AttributesInLine(s, acc)
    ensures var r := ParseAttributes(s, i, line, acc, o); r.Attributes? ==> AttributesInLine(s, r.list)
    decreases |s| - i
  {
    hide PairValue, HasAttribute, SkipWs, LineAt, FindTag, NameEnd;
    var j := SkipWs(s, i);
    if j < |s| && IsNameStartChar(s[j]) {
      var r := ParseAttribute(s, j, o);
      if r.OneAttribute? {
        assert AttributesInLine(s, acc + [r.attribute]);
        hide ParseAttribute;
        AttributesRecorded(s, r.next, line, acc + [r.attribute], o);
      }
    }
  }

  /** What starts with a header has its `<` there. */
  lemma HeaderOpened(s: string, i: nat)
    requires i <= |s| && SkipWs(s, i) < |s| && !Identify(s, i).0.KText?
    ensures Opened(s, SkipWs(s, i), Identify(s, i).1)
  {
    var p := SkipWs(s, i);
    hide SkipWs, Opened;
    if Matches(s, p, "<?") {
      InHeader(s, p, "<?");
    } else if Matches(s, p, "<!--") {
      InHeader(s, p, "<!--");
    } else if Matches(s, p, "<![CDATA[") {
      InHeader(s, p, "<![CDATA[");
    } else if Matches(s, p, "<!") {
      InHeader(s, p, "<!");
    } else {
      InHeader(s, p, "<");
    }
  }

  lemma InHeader(s: string, p: nat, header: string)
    requires Matches(s, p, header) && |header| > 0 && header[0] == '<' && forall k | 0 < k < |header| :: header[k] != '<'
    ensures Opened(s, p, p + |header|)
  {
    assert forall k | 0 <= k < |header| :: s[p + k] == header[k];
    forall k | p < k < p + |header| ensures s[k] != '<' {
      assert s[k] == header[k - p];
    }
  }

  /** Whitespace and a slash may stand between the `<` and the name. */
  lemma NameOpened(s: string, p: nat, i: nat, start: nat)
    requires Opened(s, p, i) && start <= |s|
    requires var j := SkipWs(s, i); start == if At(s, j) == '/' then j + 1 else j
    ensures Opened(s, p, start)
  {
  }

  lemma {:induction false} ElementRecorded(s: string, p: nat, i: nat, o: Options)
    requires p < i <= |s| && Opened(s, p, i)
    ensures var r := ParseElement(s, i, LineAt(s, p), o); r.NodeParsed? ==> InLine(s, r.node)
    decreases |s| - i, 0
  {
    hide ParseAttributes, SkipWs, NameEnd, LineAt, ParseLoop, Opened, AttributesInLine;
    var line := LineAt(s, p);
    var j := SkipWs(s, i);
    var start := if At(s, j) == '/' then j + 1 else j;
    if start < |s| && IsNameStartChar(s[start]) {
      NameOpened(s, p, i, start);
      var e := NameEnd(s, start + 1);
      var a := ParseAttributes(s, e, line, [], o);
      NoneInLine(s);
      AttributesRecorded(s, e, line, [], o);
      if a.Attributes? {
        LoopRecorded(s, a.next, false, [], o);
      }
    }
  }

  lemma LeafRecorded(s: string, i: nat, o: Options)
    requires i <= |s| && SkipWs(s, i) < |s|
    ensures var (kind, start) := Identify(s, i);
      var r := ParseNode(s, start, kind, LineAt(s, SkipWs(s, i)), o);
      !kind.KElement? && r.NodeParsed? ==> InLine(s, r.node)
  {
    hide ParseElement, FindTag, LineAt, Opened, SkipWs;
    var (kind, start) := Identify(s, i);
    if !kind.KText? {
      HeaderOpened(s, i);
      hide Identify;
    }
  }

  lemma ComparisonInLine(s: string, n: Parsed, endTag: Option<StrPair>)
    requires InLine(s, n)
    ensures InLine(s, AfterComparison(n, endTag))
  {
    hide AllInLine, AttributesInLine, OpenedIn;
  }

  lemma {:induction false} LoopRecorded(s: string, i: nat, inDocument: bool, acc: seq<Parsed>, o: Options)
    requires i <= |s| && AllInLine(s, acc)
    ensures match ParseLoop(s, i, inDocument, acc, o)
            case LoopFailed(_, _) => true
            case LoopEnded(nodes) => AllInLine(s, nodes)
            case LoopClosed(nodes, _, _) => AllInLine(s, nodes)
    decreases |s| - i, 2
  {
    hide ParseElement, ParseMarkup, ParsePlainText, Identify, SkipWs, LineAt, AfterComparison, Mismatch, WellLocated, InLine, AllInLine, Opened;
    var j := SkipWs(s, i);
    if j < |s| {
      var (kind, start) := Identify(s, i);
      var r := ParseNode(s, start, kind, LineAt(s, j), o);
      if kind.KElement? {
        HeaderOpened(s, i);
        ElementRecorded(s, j, start, o);
      } else {
        LeafRecorded(s, i, o);
      }
      if r.NodeParsed? {
        ComparisonInLine(s, r.node, r.endTag);
        AppendInLine(s, acc, AfterComparison(r.node, r.endTag));
        hide ParseNode;
        LoopRecorded(s, r.next, inDocument, acc + [AfterComparison(r.node, r.endTag)], o);
      }
    }
  }

  /** Main result: in every parsed document each node and each attribute has the number of the line it is in. */
  lemma {:induction false} LinesRecorded(s: string, o: Options)
    ensures var r := ParseDocument(s, o); r.ParsedDocument? ==> AllInLine(s, r.nodes)
  {
    hide SkipWs, ParseLoop;
    var i := SkipWs(s, 0);
    var p := if Matches(s, i, BOM) then i + 3 else i;
    LoopRecorded(s, p, true, [], o);
  }
}
