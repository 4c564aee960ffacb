/**
 The printer and the parser together: which documents survive being written and read.
 */
module XmlTheorems {
  import opened Wrappers
  import opened XmlText
  import opened XmlDecode
  import opened XmlTree
  import opened XmlParserSpec
  import opened XmlPrinterSpec
  import opened XmlEscape
  import opened XmlRoundTrip
  import opened XmlReadBack
  import opened XmlParserOutput

  // ------------------------------------------------------------- trees that are their own normal form

  ghost predicate SettledAttributes(atts: seq<Attribute>) {
    forall k | 0 <= k < |atts| :: CrFree(atts[k].value)
  }

  /** No value holds a carriage return, and every list of siblings is settled. */
  ghost predicate SettledNode(n: Node)
    decreases n, 1
  {
    match n
    case Element(_, atts, children) => SettledAttributes(atts) && SettledNodes(children)
    case _ => CrFree(n.value)
  }

  /** No plain text is blank or stands next to another. */
  ghost predicate SettledNodes(ns: seq<Node>)
    decreases ns, 0
  {
    ns != [] ==>
      && SettledNode(ns[0])
      && (IsPlainText(ns[0]) ==> !Blank(ns[0].value) && (|ns| > 1 ==> !IsPlainText(ns[1])))
      && SettledNodes(ns[1..])
  }

  lemma {:induction false} NormalAttributesFixed(atts: seq<Attribute>)
    ensures NormalAttributes(atts) == atts <==> SettledAttributes(atts)
  {
    hide Normal, CrFree;
    if atts != [] {
      NormalAttributesFixed(atts[1..]);
      NormalIsFixpoint(atts[0].value);
      var a, rest := atts[0], NormalAttributes(atts[1..]);
      var r := NormalAttributes(atts);
      assert r == [Attribute(a.name, Normal(a.value))] + rest;
      assert r[1..] == rest && r[0] == Attribute(a.name, Normal(a.value));
      assert atts == [a] + atts[1..];
      assert forall k | 0 < k < |atts| :: atts[k] == atts[1..][k - 1];
      assert forall k | 0 <= k < |atts[1..]| :: atts[1..][k] == atts[k + 1];
    }
  }

  lemma {:induction false} NormalNodesShorter(ns: seq<Node>)
    ensures |NormalNodes(ns)| <= |ns|
    decreases |ns|
  {
    hide NormalNode, Normal, RunText, Blank;
    if ns != [] {
      if IsPlainText(ns[0]) {
        NormalNodesShorter(ns[TextRun(ns)..]);
      } else {
        NormalNodesShorter(ns[1..]);
      }
    }
  }

  lemma {:induction false} NormalNodeFixed(n: Node)
    ensures NormalNode(n) == n <==> SettledNode(n)
    decreases n, 1
  {
    hide Normal, CrFree, NormalAttributes, SettledAttributes;
    match n
    case Element(_, atts, children) =>
      NormalAttributesFixed(atts);
      NormalNodesFixed(children);
    case _ =>
      NormalIsFixpoint(n.value);
  }

  /** Siblings are their own normal form exactly when they are settled. */
  lemma {:induction false} NormalNodesFixed(ns: seq<Node>)
    ensures NormalNodes(ns) == ns <==> SettledNodes(ns)
    decreases ns, 0
  {
    hide Normal, NormalNode, SettledNode, Blank, RunText;
    if ns != [] {
      NormalNodeFixed(ns[0]);
      NormalNodesFixed(ns[1..]);
      var r := NormalNodes(ns);
      if IsPlainText(ns[0]) {
        RunFixed(ns);
      } else {
        assert r == [NormalNode(ns[0])] + NormalNodes(ns[1..]);
        assert r[1..] == NormalNodes(ns[1..]) && r[0] == NormalNode(ns[0]);
        assert ns == [ns[0]] + ns[1..];
      }
    }
  }

  lemma {:induction false} RunFixed(ns: seq<Node>)
    requires ns != [] && IsPlainText(ns[0])
    ensures NormalNodes(ns) == ns <==>
            && NormalNode(ns[0]) == ns[0] && !Blank(ns[0].value)
            && (|ns| > 1 ==> !IsPlainText(ns[1])) && NormalNodes(ns[1..]) == ns[1..]
  {
    hide Normal, Blank, NormalNodes;
    var m := TextRun(ns);
    NormalOfRun(ns);
    NormalNodesShorter(ns[m..]);
    if m == 1 {
      assert ns[..1] == [ns[0]];
      assert RunText([ns[0]]) == ns[0].value by { assert [ns[0]][1..] == []; }
      var v, rest := ns[0].value, NormalNodes(ns[1..]);
      assert ns == [ns[0]] + ns[1..];
      if !Blank(v) {
        var r := [Text(Normal(v), false)] + rest;
        assert NormalNodes(ns) == r;
        assert r[0] == Text(Normal(v), false) && r[1..] == rest;
      }
    }
  }

  // ------------------------------------------------------------- printing pieces

  lemma {:induction false} PrintNodesAppend(a: seq<Node>, b: seq<Node>)
    ensures PrintNodes(a + b) == PrintNodes(a) + PrintNodes(b)
  {
    hide PrintNode;
    if a == [] {
      assert a + b == b;
    } else {
      assert (a + b)[0] == a[0] && (a + b)[1..] == a[1..] + b;
      PrintNodesAppend(a[1..], b);
      ConcatAssociative(PrintNode(a[0]), PrintNodes(a[1..]), PrintNodes(b));
    }
  }

  lemma {:induction false} PrintTexts(run: seq<Node>)
    requires forall k | 0 <= k < |run| :: IsPlainText(run[k])
    ensures PrintNodes(run) == Escape(RunText(run), true)
  {
    hide Escape;
    PrintRun(run, |run|);
    assert run[..|run|] == run && run[|run|..] == [];
  }

  /** Everything but the plain texts at the end. */
  function WithoutTrailingTexts(ns: seq<Node>): (front: seq<Node>)
    ensures front <= ns
    ensures forall k | |front| <= k < |ns| :: IsPlainText(ns[k])
    ensures front != [] ==> !IsPlainText(front[|front| - 1])
  {
    if ns != [] && IsPlainText(ns[|ns| - 1]) then WithoutTrailingTexts(ns[..|ns| - 1]) else ns
  }

  /** At the end of the document, trailing text is an error unless it is blank. */
  lemma {:induction false} TrailingTextRead(s: string, e: nat, v: string, acc: seq<Parsed>)
    requires e <= |s| && s[e..] == Escape(v, true)
    ensures var r := ParseLoop(s, e, true, acc, DEFAULT_OPTIONS);
            if Blank(v) then r == LoopEnded(acc) else r.LoopFailed? && r.error == XML_ERROR_PARSING_TEXT
  {
    var j := SkipWs(s, e);
    assert j < |s| <==> !Blank(v) by {
      assert s[e..e + |Escape(v, true)|] == Escape(v, true);
      SkipEscaped(s, e, v);
      LeadingWritten(v);
    }
    if j < |s| {
      EscapeHasNoDelimiter(v, true);
      assert forall k | e <= k < |s| :: s[k] == s[e..][k - e];
      IdentifyText(s, e);
      NoTagAhead(s, e);
    }
  }

  lemma {:induction false} NoTagAhead(s: string, e: nat)
    requires e <= |s| && forall k | e <= k < |s| :: s[k] != '<'
    ensures FindTag(s, e, "<") == None
  {
    var r := FindTag(s, e, "<");
    if r.Some? {
      MatchesChar(s, r.value, "<", 0);
    }
  }

  /** Parsing from `p`, where `front` and then text up to the end was printed. */
  lemma {:induction false} PrintedRead(s: string, p: nat, front: seq<Node>, v: string) returns (rs: seq<Parsed>)
    requires AllWellFormed(front) && Located(true, [], front)
    requires front != [] ==> !IsPlainText(front[|front| - 1])
    requires p <= |s| && s[p..] == PrintNodes(front) + Escape(v, true)
    ensures DecodeNodes(s, rs) == NormalNodes(front)
    ensures var r := ParseLoop(s, p, true, [], DEFAULT_OPTIONS);
            if Blank(v) then r == LoopEnded(rs) else r.LoopFailed? && r.error == XML_ERROR_PARSING_TEXT
  {
    hide ParseLoop, PrintNodes, Escape, NormalNodes, DecodeNodes, AllWellFormed;
    var w := PrintNodes(front);
    assert s[p..p + |w|] == s[p..][..|w|] == w;
    rs := NodesRead(s, p, front, true, []);
    assert [] + rs == rs;
    var e := p + |w|;
    assert s[e..] == s[p..][|w|..] == Escape(v, true);
    TrailingTextRead(s, e, v, rs);
  }

  lemma FirstLocated(ns: seq<Node>)
    requires DeclarationsFirst(ns)
    ensures Located(true, [], ns)
  {
  }

  // ------------------------------------------------------------- the front of the document

  ghost predicate Unescaped(w: string) {
    forall k | 0 <= k < |w| :: !Escaped(w[k], true) && w[k] != NUL
  }

  /** Unescaped text is at the front of what is written exactly when it is at the front of the value. */
  lemma {:induction false} EscapedPrefix(v: string, rest: string, w: string)
    requires Unescaped(w) && (rest == "" || rest[0] == '<')
    ensures Matches(Escape(v, true) + rest, 0, w) <==> Matches(v, 0, w)
    decreases |w|
  {
    var s := Escape(v, true) + rest;
    if w == "" {
      assert s[0..0] == "" && v[0..0] == "";
    } else if v == "" {
      NoMatch(s, 0, w, 0);
    } else {
      assert s[0] == EscapeChar(v[0], true)[0];
      if v[0] != w[0] {
        NoMatch(s, 0, w, 0);
        NoMatch(v, 0, w, 0);
      } else {
        var s', v', w' := Escape(v[1..], true) + rest, v[1..], w[1..];
        EscapedPrefix(v', rest, w');
        assert s == [v[0]] + s' && v == [v[0]] + v' && w == [w[0]] + w';
        ConsMatches(v[0], s', w');
        ConsMatches(v[0], v', w');
      }
    }
  }

  lemma {:induction false} ConsMatches(c: char, s: string, w: string)
    ensures Matches([c] + s, 0, [c] + w) <==> Matches(s, 0, w)
  {
    MatchesConcat([c] + s, 0, [c], w);
    assert ([c] + s)[0..1] == [c];
    if |w| <= |s| {
      assert ([c] + s)[1..1 + |w|] == s[0..|w|];
    }
  }

  lemma {:induction false} NormalKeepsFirst(u: string)
    requires u != "" && !IsWhiteSpace(u[0])
    ensures Normal(u) != "" && Normal(u)[0] == u[0]
  {
    NormalIsIdeal(u);
    assert DecodeStep(u, 0, MARKUP_FLAGS) == Step(1, [u[0]], false);
  }

  /** The front of a printed list of siblings: its first text, if any, or markup. */
  lemma {:induction false} PrintFront(ns: seq<Node>)
    requires ns != []
    ensures IsPlainText(ns[0]) ==> PrintNodes(ns) == Escape(ns[0].value, true) + PrintNodes(ns[1..])
    ensures !IsPlainText(ns[0]) ==> PrintNodes(ns) != "" && PrintNodes(ns)[0] == '<'
  {
    hide PrintNode, Escape;
    if IsPlainText(ns[0]) {
      PrintTextFirst(ns);
    } else {
      MarkupStart(ns[0]);
    }
  }

  lemma {:induction false} MarkOfBom()
    ensures Unescaped(BOM) && |BOM| == 3 && BOM[0] == 0xef as char && !IsWhiteSpace(BOM[0])
  {
  }

  // ------------------------------------------------------------- which documents survive

  /** The documents the round trip is promised for, in terms of the tree alone. */
  ghost predicate Printable(d: Document) {
    && WellFormedDocument(d)
    && SettledNodes(d.children)
    && d.children != []
    && !IsPlainText(d.children[|d.children| - 1])
    && (!d.bom && IsPlainText(d.children[0]) ==>
          !IsWhiteSpace(At(d.children[0].value, 0)) && !Matches(d.children[0].value, 0, BOM))
  }

  /** Every string of the tree is a C string. */
  ghost predicate CStrings(ns: seq<Node>)
    decreases ns, 0
  {
    ns != [] ==> CStringsIn(ns[0]) && CStrings(ns[1..])
  }

  ghost predicate CStringsIn(n: Node)
    decreases n, 1
  {
    match n
    case Element(name, atts, children) =>
      NulFree(name) && CStrings(children)
      && forall k | 0 <= k < |atts| :: NulFree(atts[k].name) && NulFree(atts[k].value)
    case _ => NulFree(n.value)
  }

  lemma {:induction false} PrintAttributesNulFree(atts: seq<Attribute>)
    requires forall k | 0 <= k < |atts| :: NulFree(atts[k].name) && NulFree(atts[k].value)
    ensures NulFree(PrintAttributes(atts))
  {
    hide Escape;
    if atts != [] {
      EscapeNulFree(atts[0].value, false);
      PrintAttributesNulFree(atts[1..]);
    }
  }

  lemma {:induction false} NulFreeConcat(a: string, b: string)
    requires NulFree(a) && NulFree(b)
    ensures NulFree(a + b)
  {
  }

  lemma {:induction false} PrintElementNulFree(name: string, atts: seq<Attribute>, children: seq<Node>)
    requires NulFree(name) && NulFree(PrintAttributes(atts)) && NulFree(PrintNodes(children))
    ensures NulFree(PrintNode(Element(name, atts, children)))
  {
    hide PrintAttributes, PrintNodes, NulFree;
    var open, body, close := "<" + name + PrintAttributes(atts), ">" + PrintNodes(children), "</" + name + ">";
    assert NulFree("<") && NulFree(">") && NulFree("</") && NulFree("/>") by { MarksNulFree(); }
    NulFreeConcat("<", name);
    NulFreeConcat("<" + name, PrintAttributes(atts));
    NulFreeConcat(">", PrintNodes(children));
    NulFreeConcat("</", name);
    NulFreeConcat("</" + name, ">");
    if children == [] {
      NulFreeConcat(open, "/>");
    } else {
      NulFreeConcat(body, close);
      NulFreeConcat(open, body + close);
      assert PrintNode(Element(name, atts, children)) == open + (body + close);
    }
  }

  lemma {:induction false} MarksNulFree()
    ensures NulFree("<") && NulFree(">") && NulFree("</") && NulFree("/>")
  {
  }

  lemma {:induction false} PrintNodeNulFree(n: Node)
    requires CStringsIn(n)
    ensures NulFree(PrintNode(n))
    decreases n, 1
  {
    hide Escape, PrintAttributes, PrintNodes, CStrings;
    match n
    case Element(name, atts, children) =>
      PrintAttributesNulFree(atts);
      PrintNulFree(children);
      PrintElementNulFree(name, atts, children);
    case _ =>
      EscapeNulFree(n.value, true);
  }

  lemma {:induction false} PrintNulFree(ns: seq<Node>)
    requires CStrings(ns)
    ensures NulFree(PrintNodes(ns))
    decreases ns, 0
  {
    hide PrintNode, CStringsIn;
    if ns != [] {
      PrintNodeNulFree(ns[0]);
      PrintNulFree(ns[1..]);
    }
  }

  lemma {:induction false} WellFormedCStrings(ns: seq<Node>)
    requires AllWellFormed(ns)
    ensures CStrings(ns)
    decreases ns, 0
  {
    hide CStringsIn, WellFormed;
    if ns != [] {
      WellFormedCString(ns[0]);
      WellFormedCStrings(ns[1..]);
    }
  }

  lemma {:induction false} WellFormedCString(n: Node)
    requires WellFormed(n)
    ensures CStringsIn(n)
    decreases n, 1
  {
    hide Free, CStrings, IsName;
    match n
    case Element(name, atts, children) =>
      WellFormedCStrings(children);
      forall k | 0 <= k < |atts| ensures NulFree(atts[k].name) {
        NameNulFree(atts[k].name);
      }
    case _ =>
  }

  /** What is printed of a printable document is a C string. */
  lemma {:induction false} PrintableText(d: Document)
    requires Printable(d)
    ensures NulFree(PrintDocument(d))
  {
    hide PrintNodes;
    WellFormedCStrings(d.children);
    PrintNulFree(d.children);
  }

  /** Where parsing starts once a byte order mark has been written. */
  lemma {:induction false} BomRead(s: string, rest: string)
    requires s == BOM + rest
    ensures SkipWs(s, 0) == 0 && Matches(s, 0, BOM) && s[3..] == rest
  {
    MarkOfBom();
    SkipWsAt(s, 0, 0);
  }

  lemma {:induction false} PrintableIsRead(d: Document)
    requires Printable(d)
    ensures ReadDocument(PrintDocument(d), DEFAULT_OPTIONS) == Read(d)
  {
    hide ParseLoop, PrintNodes, NormalNodes, DecodeNodes, AllWellFormed, SettledNodes, SkipWs, Escape;
    var s, ns, w := PrintDocument(d), d.children, PrintNodes(d.children);
    var p := if d.bom then 3 else 0;
    PrintableFront(d);
    if d.bom {
      BomRead(s, w);
    } else {
      assert s == w && s[0..] == w;
    }
    assert Escape("", true) == "" by { EscapeHead("", true); }
    assert s[p..] == w + "";
    var rs := PrintedRead(s, p, ns, "");
    NormalNodesFixed(ns);
  }

  /** A printable document starts where the parser looks, and without a mark of its own. */
  lemma {:induction false} PrintableFront(d: Document)
    requires Printable(d)
    ensures PrintNodes(d.children) != ""
    ensures !d.bom ==> SkipWs(PrintNodes(d.children), 0) == 0 && !Matches(PrintNodes(d.children), 0, BOM)
  {
    hide PrintNodes, AllWellFormed, SettledNode, Escape;
    var ns, w := d.children, PrintNodes(d.children);
    PrintFront(ns);
    MarkOfBom();
    if IsPlainText(ns[0]) {
      var v, rest := ns[0].value, PrintNodes(ns[1..]);
      assert |ns| > 1;
      PrintFront(ns[1..]);
      EscapedPrefix(v, rest, BOM);
      EscapeHead(v, true);
      assert v != "" && w[0] == Escape(v, true)[0];
    } else {
      NoMatch(w, 0, BOM, 0);
    }
    if !d.bom { SkipWsAt(w, 0, 0); }
  }

  lemma {:induction false} PrintSplit(ns: seq<Node>)
    ensures var front := WithoutTrailingTexts(ns);
            PrintNodes(ns) == PrintNodes(front) + Escape(RunText(ns[|front|..]), true)
  {
    hide PrintNodes, Escape;
    var front := WithoutTrailingTexts(ns);
    assert ns == front + ns[|front|..];
    PrintNodesAppend(front, ns[|front|..]);
    PrintTexts(ns[|front|..]);
  }

  lemma {:induction false} PrefixWellFormed(ns: seq<Node>, front: seq<Node>)
    requires front <= ns && AllWellFormed(ns) && DeclarationsFirst(ns)
    ensures AllWellFormed(front) && DeclarationsFirst(front)
  {
    RunWellFormed(ns, |front|);
    assert ns[..|front|] == front;
  }

  /** If the document read is the one printed, nothing was dropped or changed. */
  lemma {:induction false} ReadFromFront(s: string, p: nat, d: Document, front: seq<Node>, v: string)
    requires AllWellFormed(front) && DeclarationsFirst(front)
    requires front != [] ==> !IsPlainText(front[|front| - 1])
    requires p <= |s| && s[p..] == PrintNodes(front) + Escape(v, true)
    requires ReadDocument(s, DEFAULT_OPTIONS) == Read(d)
    requires p == if Matches(s, SkipWs(s, 0), BOM) then SkipWs(s, 0) + 3 else SkipWs(s, 0)
    ensures NormalNodes(front) == d.children && |d.children| <= |front|
    ensures p < |s|
  {
    hide ParseLoop, PrintNodes, NormalNodes, DecodeNodes, AllWellFormed, SkipWs, Escape;
    FirstLocated(front);
    var rs := PrintedRead(s, p, front, v);
    NormalNodesShorter(front);
  }

  lemma {:induction false} ReadIsPrintable(d: Document)
    requires CStrings(d.children)
    requires ReadDocument(PrintDocument(d), DEFAULT_OPTIONS) == Read(d)
    ensures Printable(d)
  {
    hide ParseLoop, PrintNodes, NormalNodes, DecodeNodes, AllWellFormed, SettledNodes, SkipWs, Escape, ReadDocument;
    var s, ns := PrintDocument(d), d.children;
    PrintNulFree(ns);
    assert NulFree(s);
    ReadIsWellFormed(s, DEFAULT_OPTIONS);
    PrintSplit(ns);
    var front := WithoutTrailingTexts(ns);
    var v := RunText(ns[|front|..]);
    PrefixWellFormed(ns, front);
    if d.bom {
      BomRead(s, PrintNodes(ns));
      ReadFromFront(s, 3, d, front, v);
      assert front == ns;
      NormalNodesFixed(ns);
      EmptyPrint(ns, s, 3);
    } else {
      assert s == PrintNodes(ns);
      BomIsReported(s, d);
      ReadWithoutBom(d, front, v);
    }
  }

  lemma {:induction false} BomIsReported(s: string, d: Document)
    requires ReadDocument(s, DEFAULT_OPTIONS) == Read(d)
    ensures d.bom <==> Matches(s, SkipWs(s, 0), BOM)
  {
    hide ParseLoop, SkipWs;
  }

  lemma {:induction false} EmptyPrint(ns: seq<Node>, s: string, p: nat)
    requires p < |s| && s[p..] == PrintNodes(ns)
    ensures ns != []
  {
  }

  /** Behind the leading whitespace of a written value comes the rest of the value. */
  lemma {:induction false} BehindLeading(s: string, u: string, tail: string)
    requires s == Escape(u, true) + tail && (tail == "" || tail[0] == '<')
    ensures var k := SkipWs(u, 0);
            SkipWs(s, 0) == k && k <= |s| && s[k..] == Escape(u[k..], true) + tail
  {
    hide SkipWs, Escape;
    var k, e := SkipWs(u, 0), Escape(u, true);
    assert s[0..|e|] == e;
    SkipEscaped(s, 0, u);
    EscapeLeading(u, k);
    var front, back := u[..k], Escape(u[k..], true);
    assert s == front + (back + tail);
  }

  /** Without a byte order mark, a document of texts only is never read back. */
  lemma {:induction false} TextsOnly(d: Document, v: string)
    requires !d.bom && PrintNodes(d.children) == Escape(v, true)
    requires !Matches(PrintNodes(d.children), SkipWs(PrintNodes(d.children), 0), BOM)
    ensures ReadDocument(PrintNodes(d.children), DEFAULT_OPTIONS) != Read(d)
  {
    hide ParseLoop, NormalNodes, DecodeNodes, SkipWs, Escape, ReadDocument, Matches;
    var s := PrintNodes(d.children);
    assert s == Escape(v, true) + "";
    BehindLeading(s, v, "");
    var k := SkipWs(v, 0);
    assert PrintNodes([]) == "";
    assert s[k..] == "" + Escape(v[k..], true);
    if ReadDocument(s, DEFAULT_OPTIONS) == Read(d) {
      ReadFromFront(s, k, d, [], v[k..]);
      assert false;
    }
  }

  /** The printed document from the parser's starting point on, split at its leading text. */
  lemma {:induction false} FrontSplit(s: string, front: seq<Node>, v: string)
    requires front != [] && !IsPlainText(front[|front| - 1])
    requires s == PrintNodes(front) + Escape(v, true)
    ensures var m := TextRun(front);
            var u := RunText(front[..m]);
            var k := SkipWs(u, 0);
            && m < |front|
            && SkipWs(s, 0) == k <= |s|
            && s[k..] == Escape(u[k..], true) + (PrintNodes(front[m..]) + Escape(v, true))
  {
    hide SkipWs, Escape, PrintNodes, RunText;
    var m := TextRun(front);
    var u, rest := RunText(front[..m]), front[m..];
    PrintRun(front, m);
    PrintFront(rest);
    var tail := PrintNodes(rest) + Escape(v, true);
    assert s == Escape(u, true) + tail;
    BehindLeading(s, u, tail);
  }

  /** The leading text, as one text without its first `cut` characters, and what follows. */
  function CutFront(front: seq<Node>, cut: nat): seq<Node>
    requires cut <= |RunText(front[..TextRun(front)])|
  {
    var m := TextRun(front);
    var u := RunText(front[..m]);
    if cut == |u| then front[m..] else [Text(u[cut..], false)] + front[m..]
  }

  /** The leading text as the parser sees it, its whitespace stripped. */
  function StrippedFront(front: seq<Node>): seq<Node> {
    CutFront(front, SkipWs(RunText(front[..TextRun(front)]), 0))
  }

  lemma {:induction false} CutPrint(front: seq<Node>, cut: nat)
    requires cut <= |RunText(front[..TextRun(front)])|
    ensures var m := TextRun(front);
            PrintNodes(CutFront(front, cut)) == Escape(RunText(front[..m])[cut..], true) + PrintNodes(front[m..])
  {
    hide SkipWs, Escape, RunText;
    var m := TextRun(front);
    var u := RunText(front[..m]);
    if cut == |u| {
      EscapeHead("", true);
      assert u[cut..] == "";
    } else {
      var ns := [Text(u[cut..], false)] + front[m..];
      assert ns[1..] == front[m..];
      PrintTextFirst(ns);
    }
  }

  lemma {:induction false} TextAddedWellFormed(v: string, rest: seq<Node>)
    requires NulFree(v) && AllWellFormed(rest)
    ensures AllWellFormed([Text(v, false)] + rest)
  {
    assert ([Text(v, false)] + rest)[1..] == rest;
  }

  lemma NoRunText(front: seq<Node>)
    ensures RunText(front[..0]) == ""
  {
  }

  lemma {:induction false} CutWellFormed(front: seq<Node>, cut: nat)
    requires cut <= |RunText(front[..TextRun(front)])|
    requires front != [] && !IsPlainText(front[|front| - 1])
    requires AllWellFormed(front) && DeclarationsFirst(front)
    ensures var ns := CutFront(front, cut);
            AllWellFormed(ns) && DeclarationsFirst(ns) && ns != [] && !IsPlainText(ns[|ns| - 1])
  {
    hide SkipWs, AllWellFormed, RunText, DeclarationsFirst, NulFree, TextRun, WellFormed;
    var m := TextRun(front);
    var u := RunText(front[..m]);
    RunWellFormed(front, m);
    RunNulFree(front[..m]);
    if m == 0 { NoRunText(front); }
    TextsCut(front, m, u[cut..]);
    SuffixNulFree(u, cut);
    TextAddedWellFormed(u[cut..], front[m..]);
  }

  lemma SuffixNulFree(v: string, k: nat)
    requires k <= |v| && NulFree(v)
    ensures NulFree(v[k..])
  {
  }

  /** The order of the declarations does not depend on the texts in front. */
  lemma TextsCut(front: seq<Node>, m: nat, v: string)
    requires m <= |front| && DeclarationsFirst(front) && forall k | 0 <= k < m :: IsPlainText(front[k])
    requires front != [] && !IsPlainText(front[|front| - 1])
    ensures m < |front| && front[m..][|front| - m - 1] == front[|front| - 1] && DeclarationsFirst(front[m..])
    ensures m > 0 ==> DeclarationsFirst([Text(v, false)] + front[m..])
  {
    if m > 0 {
      assert !front[0].Declaration?;
      assert forall j | m <= j < |front| :: !front[j].Declaration?;
    }
  }

  /** If the stripped front still reads as the whole document, nothing was stripped. */
  lemma {:induction false} NothingStripped(d: Document, front: seq<Node>)
    requires front <= d.children && NormalNodes(StrippedFront(front)) == d.children
    requires front != [] && !IsPlainText(front[|front| - 1])
    ensures front == d.children == StrippedFront(front)
    ensures IsPlainText(front[0]) ==> front[0].value != "" && !IsWhiteSpace(front[0].value[0])
  {
    hide SkipWs, NormalNodes, Normal;
    var m := TextRun(front);
    var u, rest, ns := RunText(front[..m]), front[m..], StrippedFront(front);
    var k := SkipWs(u, 0);
    NormalNodesShorter(ns);
    if k == |u| {
      assert m == 0;
      assert rest == front;
    } else {
      assert front[..0] == [];
      assert m > 0;
      assert front[..1] == [front[0]];
      assert RunText([front[0]]) == front[0].value by { assert [front[0]][1..] == []; }
      assert u == front[0].value;
      assert ns[0] == Text(u[k..], false);
      FirstOfNormal(ns);
      NormalKeepsFirst(u[k..]);
      assert Normal(u[k..]) == u;
      assert k == 0;
      assert u[0..] == u && front == [front[0]] + rest;
    }
  }

  lemma {:induction false} FirstOfNormal(ns: seq<Node>)
    requires |ns| > 1 && IsPlainText(ns[0]) && !IsPlainText(ns[1]) && !Blank(ns[0].value)
    ensures NormalNodes(ns) != [] && NormalNodes(ns)[0] == Text(Normal(ns[0].value), false)
  {
    hide Normal, Blank, NormalNodes;
    assert ns[1..][0] == ns[1];
    assert TextRun(ns) == 1;
    assert ns[..1] == [ns[0]];
    assert RunText([ns[0]]) == ns[0].value by { assert [ns[0]][1..] == []; }
    NormalOfRun(ns);
  }

  /** The document begins with leading whitespace of a text only if the parser drops it. */
  lemma {:induction false} ReadWithoutBom(d: Document, front: seq<Node>, v: string)
    requires !d.bom && WellFormedDocument(d)
    requires front <= d.children && (front != [] ==> !IsPlainText(front[|front| - 1]))
    requires AllWellFormed(front) && DeclarationsFirst(front)
    requires PrintNodes(d.children) == PrintNodes(front) + Escape(v, true)
    requires var s := PrintNodes(d.children);
             ReadDocument(s, DEFAULT_OPTIONS) == Read(d) && !Matches(s, SkipWs(s, 0), BOM)
    ensures Printable(d)
  {
    hide ParseLoop, PrintNodes, NormalNodes, DecodeNodes, AllWellFormed, SettledNode, SkipWs, Escape, ReadDocument, Normal,
         Matches, DeclarationsFirst, TextRun, RunText, CutFront;
    var s, ns := PrintNodes(d.children), d.children;
    if front == [] {
      assert PrintNodes([]) == "" by { PrintNothing(); }
      assert s == Escape(v, true);
      TextsOnly(d, v);
    } else {
      var front' := StrippedFront(front);
      FrontSplit(s, front, v);
      var k := SkipWs(s, 0);
      CutPrint(front, k);
      CutWellFormed(front, k);
      var m := TextRun(front);
      var u := RunText(front[..m]);
      ConcatAssociative(Escape(u[k..], true), PrintNodes(front[m..]), Escape(v, true));
      ReadFromFront(s, k, d, front', v);
      NothingStripped(d, front);
      NormalNodesFixed(ns);
      if IsPlainText(ns[0]) {
        FirstTextClear(ns, s);
      }
    }
  }

  lemma {:induction false} PrintNothing()
    ensures PrintNodes([]) == ""
  {
  }

  lemma {:induction false} FirstTextClear(ns: seq<Node>, s: string)
    requires |ns| > 1 && IsPlainText(ns[0]) && !IsPlainText(ns[1])
    requires ns[0].value != "" && !IsWhiteSpace(ns[0].value[0])
    requires s == PrintNodes(ns) && !Matches(s, SkipWs(s, 0), BOM)
    ensures !Matches(ns[0].value, 0, BOM)
  {
    hide PrintNodes, Escape;
    var v, rest := ns[0].value, PrintNodes(ns[1..]);
    PrintFront(ns);
    PrintFront(ns[1..]);
    EscapeHead(v, true);
    assert s[0] == Escape(v, true)[0];
    SkipWsAt(s, 0, 0);
    MarkOfBom();
    EscapedPrefix(v, rest, BOM);
  }

  /**
   Main theorem.  Writing a document compactly and reading it back gives the same document
   exactly when it is printable.
   */
  lemma {:induction false} RoundTrip(d: Document)
    requires CStrings(d.children)
    ensures ReadDocument(PrintDocument(d), DEFAULT_OPTIONS) == Read(d) <==> Printable(d)
  {
    hide ReadDocument, PrintDocument, Printable;
    if Printable(d) {
      PrintableIsRead(d);
    }
    if ReadDocument(PrintDocument(d), DEFAULT_OPTIONS) == Read(d) {
      ReadIsPrintable(d);
    }
  }
}
