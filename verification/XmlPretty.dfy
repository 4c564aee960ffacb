/**
 Pretty printing read back.  What a printer writes that breaks lines and indents is the compact
 print of the same document with texts of whitespace put in, and such texts only matter where an
 element follows a text.
 */
module XmlPretty {
  import opened XmlText
  import opened XmlDecode
  import opened XmlTree
  import opened XmlParserSpec
  import opened XmlPrinterSpec
  import opened XmlEscape
  import opened XmlReadBack
  import opened XmlParserOutput
  import opened XmlTheorems
  import opened XmlPrintRead
  import opened XmlPrinter
  import opened XmlParser
  import A = XmlAccept

  // ------------------------------------------------------------- the whitespace put in

  /** What the printer's whitespace depends on. */
  datatype Layout = Layout(depth: int, first: bool, textDepth: int)

  const TOP := Layout(0, true, -1)

  /** What is written in front of a node. */
  function Ahead(l: Layout, n: Node): string {
    if n.Text? then ""
    else if l.textDepth < 0 && !l.first then "\n" + Spaces(l.depth)
    else if n.Element? then Spaces(l.depth)
    else ""
  }

  /** What is written behind a node. */
  function Behind(l: Layout, n: Node): string {
    if n.Element? && l.depth == 0 then "\n" else ""
  }

  /** What is written in front of the end tag, when `l` is the layout behind the last child. */
  function AtEnd(l: Layout): string {
    if l.textDepth < 0 then "\n" + Spaces(l.depth - 1) else ""
  }

  function Inside(l: Layout): Layout {
    Layout(l.depth + 1, false, l.textDepth)
  }

  function After(l: Layout, n: Node): (r: Layout)
    ensures r.depth == l.depth
    decreases n, 1
  {
    match n
    case Element(_, _, children) =>
      var inner := AfterAll(Inside(l), children);
      Layout(l.depth, inner.first, if inner.textDepth == l.depth then -1 else inner.textDepth)
    case Text(_, _) => l.(textDepth := l.depth - 1)
    case _ => l.(first := false)
  }

  function AfterAll(l: Layout, ns: seq<Node>): (r: Layout)
    ensures r.depth == l.depth
    decreases ns, 0
  {
    if ns == [] then l else AfterAll(After(l, ns[0]), ns[1..])
  }

  function Whitespace(w: string): seq<Node> {
    if w == "" then [] else [Text(w, false)]
  }

  /** The node with its whitespace inside. */
  function SpacedNode(l: Layout, n: Node): (r: Node)
    ensures IsPlainText(r) == IsPlainText(n) && r.Declaration? == n.Declaration?
    decreases n, 1
  {
    match n
    case Element(name, atts, children) => Element(name, atts, SpacedChildren(Inside(l), children))
    case _ => n
  }

  function SpacedChildren(l: Layout, ns: seq<Node>): seq<Node>
    decreases ns, 1
  {
    if ns == [] then [] else Spaced(l, ns) + Whitespace(AtEnd(AfterAll(l, ns)))
  }

  /** The siblings with the whitespace in front of, between and inside them. */
  function Spaced(l: Layout, ns: seq<Node>): seq<Node>
    decreases ns, 0
  {
    if ns == [] then []
    else Whitespace(Ahead(l, ns[0])) + [SpacedNode(l, ns[0])] + Whitespace(Behind(l, ns[0])) + Spaced(After(l, ns[0]), ns[1..])
  }

  // ------------------------------------------------------------- pretty print as compact print

  lemma {:induction false} SpacesBlank(depth: int)
    ensures forall k | 0 <= k < |Spaces(depth)| :: Spaces(depth)[k] == ' '
    ensures |Spaces(depth)| == if depth > 0 then 4 * depth else 0
    decreases depth
  {
    if depth > 0 {
      SpacesBlank(depth - 1);
    }
  }

  /** Line feeds and spaces only. */
  predicate Blanks(w: string) {
    forall k | 0 <= k < |w| :: w[k] == ' ' || w[k] == '\n'
  }

  lemma LayoutBlanks(l: Layout, n: Node)
    ensures Blanks(Ahead(l, n)) && Blanks(Behind(l, n)) && Blanks(AtEnd(l))
  {
    hide Spaces;
    SpacesBlank(l.depth);
    SpacesBlank(l.depth - 1);
  }

  lemma {:induction false} WhitespacePrinted(w: string)
    requires Blanks(w)
    ensures PrintNodes(Whitespace(w)) == w && Escape(w, true) == w
  {
    EscapeRun(w, 0, |w|, true);
    assert w[..|w|] == w && w[0..|w|] == w && w[..0] == "";
    if w != "" {
      assert Whitespace(w)[1..] == [];
    }
  }

  lemma {:induction false} OnePrinted(n: Node)
    ensures PrintNodes([n]) == PrintNode(n)
  {
    hide PrintNode;
    assert [n][1..] == [] && PrintNode(n) + "" == PrintNode(n);
  }

  lemma {:induction false} SpacedPrinted(l: Layout, ns: seq<Node>)
    requires ns != []
    ensures PrintNodes(Spaced(l, ns)) ==
      Ahead(l, ns[0]) + PrintNode(SpacedNode(l, ns[0])) + Behind(l, ns[0]) + PrintNodes(Spaced(After(l, ns[0]), ns[1..]))
  {
    hide PrintNode, PrintNodes, SpacedNode, After, Ahead, Behind, Whitespace;
    var a, n, b, rest := Ahead(l, ns[0]), SpacedNode(l, ns[0]), Behind(l, ns[0]), Spaced(After(l, ns[0]), ns[1..]);
    LayoutBlanks(l, ns[0]);
    WhitespacePrinted(a);
    WhitespacePrinted(b);
    OnePrinted(n);
    PrintNodesAppend(Whitespace(a), [n]);
    PrintNodesAppend(Whitespace(a) + [n], Whitespace(b));
    PrintNodesAppend(Whitespace(a) + [n] + Whitespace(b), rest);
  }

  lemma {:induction false} ChildrenPrinted(l: Layout, ns: seq<Node>)
    requires ns != []
    ensures PrintNodes(SpacedChildren(l, ns)) == PrintNodes(Spaced(l, ns)) + AtEnd(AfterAll(l, ns)) && SpacedChildren(l, ns) != []
  {
    hide PrintNodes, AfterAll, AtEnd, After, SpacedNode;
    var e := AtEnd(AfterAll(l, ns));
    LayoutBlanks(AfterAll(l, ns), ns[0]);
    WhitespacePrinted(e);
    PrintNodesAppend(Spaced(l, ns), Whitespace(e));
  }

  function LayoutOf(st: PrinterState): Layout {
    Layout(st.depth, st.firstElement, st.textDepth)
  }

  /** The printer with `w` written and the layout `l`; no start tag is open. */
  function Written(st: PrinterState, w: string, l: Layout): PrinterState {
    st.(out := st.out + w, justOpened := false, firstElement := l.first, textDepth := l.textDepth)
  }

  lemma JoinedLeaf(out: string, p: string, a: string, w: string)
    ensures out + p + a + w == out + (p + (a + w + ""))
  {
    assert a + w + "" == a + w;
  }

  lemma {:induction false} LeafSpaced(st: PrinterState, n: Node)
    requires !st.compact && st.processEntities && !n.Element?
    ensures var l := LayoutOf(st); Visit(st, n) == Written(st, Pending(st) + (Ahead(l, n) + PrintNode(n) + Behind(l, n)), After(l, n))
  {
    hide Escape, Spaces, VisitAll, PrintNodes, PrintAttributes, AfterAll;
    var l := LayoutOf(st);
    JoinedLeaf(st.out, Pending(st), Ahead(l, n), PrintNode(n));
    ConcatAssociative(st.out + Pending(st), "\n", Spaces(st.depth));
    assert st.out + "" == st.out && st.out + Pending(st) + "" == st.out + Pending(st);
  }

  lemma {:induction false} HeadSpaced(st: PrinterState, n: Node)
    requires !st.compact && n.Element?
    ensures var first := st.OpenElement(n.name);
      first == st.(out := st.out + Pending(st) + Ahead(LayoutOf(st), n) + ("<" + n.name),
                   justOpened := true, firstElement := false, depth := st.depth + 1, stack := st.stack + [n.name])
  {
    hide Spaces;
    ConcatAssociative(st.out + Pending(st), "\n", Spaces(st.depth));
    assert st.out + "" == st.out && st.out + Pending(st) + "" == st.out + Pending(st);
  }

  /** In pretty mode, visiting a node writes the compact print of the node and its whitespace. */
  lemma {:induction false} PrettyVisit(st: PrinterState, n: Node)
    requires !st.compact && st.processEntities
    ensures var l := LayoutOf(st);
      Visit(st, n) == Written(st, Pending(st) + (Ahead(l, n) + PrintNode(SpacedNode(l, n)) + Behind(l, n)), After(l, n))
    decreases n, 1
  {
    hide Escape, PrintAttributes, VisitAll, PrintNodes, PrintNode, Spaces, After, AfterAll, SpacedChildren, PrinterState.OpenElement, Ahead, Behind;
    if n.Element? {
      var entered := PushAttributes(st.OpenElement(n.name), n.attributes);
      AttributesKeep(st.OpenElement(n.name), n.attributes);
      HeadSpaced(st, n);
      AttributesWritten(st.OpenElement(n.name), n.attributes);
      PrettyVisitAll(entered, n.children);
      assert LayoutOf(entered) == Inside(LayoutOf(st));
      ElementSpaced(st, entered, n);
    } else {
      LeafSpaced(st, n);
    }
  }

  lemma {:induction false} PrettyVisitAll(st: PrinterState, ns: seq<Node>)
    requires !st.compact && st.processEntities
    ensures ns == [] ==> VisitAll(st, ns) == st
    ensures ns != [] ==> VisitAll(st, ns) == Written(st, Pending(st) + PrintNodes(Spaced(LayoutOf(st), ns)), AfterAll(LayoutOf(st), ns))
    decreases ns, 0
  {
    hide Visit, PrintNode, PrintNodes, Spaced, SpacedNode, After, Ahead, Behind;
    if ns != [] {
      var l := LayoutOf(st);
      var one, rest := Ahead(l, ns[0]) + PrintNode(SpacedNode(l, ns[0])) + Behind(l, ns[0]), PrintNodes(Spaced(After(l, ns[0]), ns[1..]));
      PrettyVisit(st, ns[0]);
      SpacedPrinted(l, ns);
      var next := Visit(st, ns[0]);
      assert LayoutOf(next) == After(l, ns[0]);
      PrettyVisitAll(next, ns[1..]);
      ConcatAssociative(Pending(st), one, rest);
      ConcatAssociative(st.out, Pending(st) + one, rest);
      if ns[1..] == [] {
        NothingSpaced(After(l, ns[0]));
        assert one + "" == one;
      } else {
        assert "" + rest == rest;
      }
    }
  }

  lemma NothingSpaced(l: Layout)
    ensures Spaced(l, []) == [] && PrintNodes([]) == ""
  {
  }

  lemma JoinedElement(before: string, head: string, body: string, e: string, close: string)
    ensures before + head + (">" + body) + e + close == before + (head + (">" + (body + e) + close))
  {
  }

  /** The end of an element, from the state behind its children. */
  lemma {:induction false} ElementClosed(st: PrinterState, l: Layout, before: string, head: string, body: string, inner: Layout)
    requires !st.compact && st.stack != [] && st.depth == l.depth + 1 && st.textDepth == inner.textDepth && inner.depth == l.depth + 1
    requires if st.justOpened then st.out == before + head else st.out == before + head + (">" + body)
    ensures var name := st.stack[|st.stack| - 1];
      var w := if st.justOpened then head + "/>" else head + (">" + (body + AtEnd(inner)) + ("</" + name + ">"));
      st.CloseElement() == st.(out := before + w + (if l.depth == 0 then "\n" else ""), justOpened := false, depth := l.depth,
        stack := st.stack[..|st.stack| - 1], textDepth := if inner.textDepth == l.depth then -1 else inner.textDepth)
  {
    hide Spaces;
    var close := "</" + st.stack[|st.stack| - 1] + ">";
    JoinedElement(before, head, body, AtEnd(inner), close);
    ConcatAssociative(before, head, "/>");
    ConcatAssociative(st.out, "\n", Spaces(l.depth));
    assert st.out + "" == st.out;
    var w := if st.justOpened then head + "/>" else head + (">" + (body + AtEnd(inner)) + close);
    assert before + w + "" == before + w;
  }

  lemma ElementPrinted(name: string, atts: seq<Attribute>, children: seq<Node>)
    ensures var head := "<" + name + PrintAttributes(atts);
      PrintNode(Element(name, atts, children)) == if children == [] then head + "/>" else head + (">" + PrintNodes(children) + ("</" + name + ">"))
  {
    hide PrintNodes, PrintAttributes;
  }

  lemma {:induction false} ElementSpaced(st: PrinterState, entered: PrinterState, n: Node)
    requires !st.compact && n.Element?
    requires var l := LayoutOf(st);
      && entered == st.(out := st.out + Pending(st) + Ahead(l, n) + ("<" + n.name) + PrintAttributes(n.attributes),
                        justOpened := true, firstElement := false, depth := st.depth + 1, stack := st.stack + [n.name])
      && var inside := VisitAll(entered, n.children);
      && (n.children == [] ==> inside == entered)
      && (n.children != [] ==> inside == Written(entered, ">" + PrintNodes(Spaced(Inside(l), n.children)), AfterAll(Inside(l), n.children)))
    ensures var l := LayoutOf(st);
      VisitAll(entered, n.children).stack != [] &&
      VisitAll(entered, n.children).CloseElement() ==
        Written(st, Pending(st) + (Ahead(l, n) + PrintNode(SpacedNode(l, n)) + Behind(l, n)), After(l, n))
  {
    hide PrintAttributes, VisitAll, PrintNodes, Spaces, Spaced, SpacedChildren, PrinterState.CloseElement, Ahead, AtEnd;
    var l := LayoutOf(st);
    var before, head := st.out + Pending(st) + Ahead(l, n), "<" + n.name + PrintAttributes(n.attributes);
    var inside, inner := VisitAll(entered, n.children), AfterAll(Inside(l), n.children);
    ConcatAssociative(before, "<" + n.name, PrintAttributes(n.attributes));
    ElementClosed(inside, l, before, head, PrintNodes(Spaced(Inside(l), n.children)), inner);
    ElementPrinted(n.name, n.attributes, SpacedChildren(Inside(l), n.children));
    if n.children == [] {
      NoChildrenSpaced(Inside(l));
    } else {
      ChildrenPrinted(Inside(l), n.children);
    }
    hide PrintNode;
    JoinedNode(st.out, Pending(st), Ahead(l, n), PrintNode(SpacedNode(l, n)), Behind(l, n));
    assert (st.stack + [n.name])[..|st.stack|] == st.stack;
  }

  lemma NoChildrenSpaced(l: Layout)
    ensures SpacedChildren(l, []) == [] && AfterAll(l, []) == l
  {
  }

  lemma JoinedNode(out: string, p: string, a: string, w: string, b: string)
    ensures out + p + a + w + b == out + (p + (a + w + b))
  {
  }

  /** What a printer that breaks lines writes for a document. */
  function PrettyDocument(d: Document): string {
    VisitDocument(PrinterState("", false, true, 0, -1, [], true, false), d, true).out
  }

  function SpacedDocument(d: Document): Document {
    Document(d.bom, Spaced(TOP, d.children))
  }

  /** Pretty print is the compact print of the document with whitespace put in. */
  lemma {:induction false} PrettyIsCompact(d: Document)
    ensures PrettyDocument(d) == PrintDocument(SpacedDocument(d))
  {
    hide VisitAll, PrintNodes, Spaced, AfterAll;
    var st := PrinterState("", false, true, 0, -1, [], true, false);
    var entered := Entered(st, d.bom, true);
    assert "" + BOM == BOM;
    PrettyVisitAll(entered, d.children);
    NothingSpaced(TOP);
    var w := PrintNodes(Spaced(TOP, d.children));
    assert entered.out + ("" + w) == entered.out + w && entered.out + "" == entered.out;
  }

  // ------------------------------------------------------------- normal forms with a text in front

  function Run(u: string): seq<Node> {
    if Blank(u) then [] else [Text(Normal(u), false)]
  }

  /** The normal form of siblings behind the text `u`, one sibling at a time. */
  function Flow(u: string, ns: seq<Node>): seq<Node>
    decreases |ns|
  {
    if ns == [] then Run(u)
    else if IsPlainText(ns[0]) then Flow(u + ns[0].value, ns[1..])
    else Run(u) + [NormalNode(ns[0])] + Flow("", ns[1..])
  }

  lemma {:induction false} FlowRun(u: string, ns: seq<Node>)
    ensures var m := TextRun(ns);
      Flow(u, ns) == Run(u + RunText(ns[..m])) + if m == |ns| then [] else [NormalNode(ns[m])] + Flow("", ns[m + 1..])
    decreases |ns|
  {
    hide NormalNode, Run;
    var m := TextRun(ns);
    if m == 0 {
      assert ns[..0] == [] && u + "" == u;
    } else {
      FlowRun(u + ns[0].value, ns[1..]);
      assert ns[..m][1..] == ns[1..][..m - 1] && ns[..m][0] == ns[0];
      assert TextRun(ns[1..]) == m - 1;
      ConcatAssociative(u, ns[0].value, RunText(ns[1..][..m - 1]));
      if m < |ns| {
        assert ns[1..][m..] == ns[m + 1..];
      }
    }
  }

  lemma {:induction false} FlowIsNormal(ns: seq<Node>)
    ensures Flow("", ns) == NormalNodes(ns)
    decreases |ns|
  {
    hide NormalNode, NormalNodes, Normal, Blank, RunText;
    BlankNothing();
    if ns == [] {
      NormalNothing();
    } else if IsPlainText(ns[0]) {
      var m := TextRun(ns);
      FlowRun("", ns);
      NormalOfRun(ns);
      assert "" + RunText(ns[..m]) == RunText(ns[..m]);
      if m == |ns| {
        NormalNothing();
        assert ns[m..] == [];
      } else {
        FlowIsNormal(ns[m + 1..]);
        NormalOfMarkup(ns, m);
      }
    } else {
      FlowIsNormal(ns[1..]);
      NormalOfMarkup(ns, 0);
      assert ns[0..] == ns;
    }
  }

  lemma NormalOfMarkup(ns: seq<Node>, m: nat)
    requires m < |ns| && !IsPlainText(ns[m])
    ensures NormalNodes(ns[m..]) == [NormalNode(ns[m])] + NormalNodes(ns[m + 1..])
  {
    hide NormalNode;
    assert ns[m..][0] == ns[m] && ns[m..][1..] == ns[m + 1..];
  }

  lemma BlankNothing()
    ensures Blank("")
  {
  }

  // ------------------------------------------------------------- what the whitespace changes

  /** No element, at any depth, follows a text that is not blank; `u` is the text in front. */
  predicate Kept(u: string, ns: seq<Node>)
    decreases ns
  {
    ns != [] ==>
      if IsPlainText(ns[0]) then Kept(u + ns[0].value, ns[1..])
      else (ns[0].Element? ==> Blank(u) && Kept("", ns[0].children)) && Kept("", ns[1..])
  }

  lemma {:induction false} IdealThenSpaces(u: string, k: nat, w: string)
    requires k <= |u| && forall j | 0 <= j < |w| :: w[j] == ' '
    ensures IdealFrom(u + w, k, MARKUP_FLAGS) == IdealFrom(u, k, MARKUP_FLAGS) + w
    decreases |u| - k
  {
    if k < |u| {
      assert At(u + w, k + 1) == CR ==> At(u, k + 1) == CR;
      var st := DecodeStep(u, k, MARKUP_FLAGS);
      assert DecodeStep(u + w, k, MARKUP_FLAGS) == st;
      IdealThenSpaces(u, st.next, w);
    } else {
      IdealOfSpaces(u + w, k);
      assert (u + w)[k..] == w;
    }
  }

  lemma {:induction false} IdealOfSpaces(v: string, k: nat)
    requires k <= |v| && forall j | k <= j < |v| :: v[j] == ' '
    ensures IdealFrom(v, k, MARKUP_FLAGS) == v[k..]
    decreases |v| - k
  {
    if k < |v| {
      IdealOfSpaces(v, k + 1);
    }
  }

  /** Spaces behind a text that is not blank are part of what is read. */
  lemma {:induction false} RunThenSpaces(u: string, depth: int)
    requires depth > 0 && !Blank(u)
    ensures Run(u + Spaces(depth)) != Run(u) && |Run(u + Spaces(depth))| == |Run(u)|
  {
    hide Spaces, Normal;
    var w := Spaces(depth);
    SpacesBlank(depth);
    var j :| 0 <= j < |u| && !IsWhiteSpace(u[j]);
    assert (u + w)[j] == u[j];
    NormalIsIdeal(u);
    NormalIsIdeal(u + w);
    IdealThenSpaces(u, 0, w);
    assert |Normal(u + w)| > |Normal(u)|;
  }

  lemma {:induction false} RunThenBlanks(u: string, w: string)
    requires Blank(u) && Blanks(w)
    ensures Run(u + w) == [] && Run(u) == []
  {
  }

  /** One node that is no text, with whitespace in front. */
  lemma {:induction false} FlowStep(u: string, w: string, n: Node, rest: seq<Node>)
    requires !IsPlainText(n)
    ensures Flow(u, Whitespace(w) + [n] + rest) == Run(u + w) + [NormalNode(n)] + Flow("", rest)
  {
    hide NormalNode, Run;
    if w == "" {
      assert u + w == u && (Whitespace(w) + [n] + rest)[1..] == rest;
    } else {
      var ns := Whitespace(w) + [n] + rest;
      assert ns[1..] == [n] + rest && ([n] + rest)[1..] == rest;
    }
  }

  lemma SameParts(a: seq<Node>, x: Node, b: seq<Node>, a': seq<Node>, x': Node, b': seq<Node>)
    requires |a| == |a'|
    ensures a + [x] + b == a' + [x'] + b' <==> a == a' && x == x' && b == b'
  {
    var s, s' := a + [x] + b, a' + [x'] + b';
    assert s[..|a|] == a && s[|a|] == x && s[|a| + 1..] == b;
    assert s'[..|a|] == a' && s'[|a|] == x' && s'[|a| + 1..] == b';
  }

  /** The whitespace in front of a node behind the text `u`, where a text only stands with `textDepth` set. */
  lemma {:induction false} AheadChanges(l: Layout, u: string, n: Node)
    requires l.depth >= 1 && !IsPlainText(n) && (u != "" ==> l.textDepth >= 0)
    ensures |Run(u + Ahead(l, n))| == |Run(u)|
    ensures Run(u + Ahead(l, n)) == Run(u) <==> (n.Element? ==> Blank(u))
  {
    hide Spaces, Run, Blank;
    LayoutBlanks(l, n);
    if Blank(u) {
      RunThenBlanks(u, Ahead(l, n));
    } else if n.Element? {
      BlankNothing();
      RunThenSpaces(u, l.depth);
    } else {
      BlankNothing();
      assert u + "" == u;
    }
  }

  /** Within an element, the whitespace is lost in reading exactly where `Kept` says. */
  lemma {:induction false} SpacedFlow(l: Layout, u: string, ns: seq<Node>)
    requires l.depth >= 1 && (u != "" ==> l.textDepth >= 0)
    ensures Flow(u, Spaced(l, ns) + Whitespace(AtEnd(AfterAll(l, ns)))) == Flow(u, ns) <==> Kept(u, ns)
    decreases ns, 0
  {
    hide NormalNode, Run, Spaces, Blank, Ahead, AtEnd;
    var e := Whitespace(AtEnd(AfterAll(l, ns)));
    if ns == [] {
      EndOfChildren(l, u);
    } else {
      var l', n := After(l, ns[0]), ns[0];
      var rest := Spaced(l', ns[1..]) + e;
      SpacedFirst(l, ns);
      if IsPlainText(n) {
        assert Spaced(l, ns) + e == [n] + rest && ([n] + rest)[1..] == rest;
        SpacedFlow(l', u + n.value, ns[1..]);
      } else {
        assert Spaced(l, ns) + e == Whitespace(Ahead(l, n)) + [SpacedNode(l, n)] + rest;
        FlowStep(u, Ahead(l, n), SpacedNode(l, n), rest);
        AheadChanges(l, u, n);
        SpacedSame(l, n);
        SpacedFlow(l', "", ns[1..]);
        SameParts(Run(u + Ahead(l, n)), NormalNode(SpacedNode(l, n)), Flow("", rest), Run(u), NormalNode(n), Flow("", ns[1..]));
      }
    }
  }

  lemma SpacedFirst(l: Layout, ns: seq<Node>)
    requires ns != [] && l.depth != 0
    ensures Spaced(l, ns) == (if ns[0].Text? then [ns[0]] else Whitespace(Ahead(l, ns[0])) + [SpacedNode(l, ns[0])]) + Spaced(After(l, ns[0]), ns[1..])
  {
    hide Spaces, After;
  }

  lemma EndOfChildren(l: Layout, u: string)
    requires u != "" ==> l.textDepth >= 0
    ensures Flow(u, Spaced(l, []) + Whitespace(AtEnd(AfterAll(l, [])))) == Flow(u, [])
  {
    hide Spaces, Normal;
    LayoutBlanks(l, Text("", false));
    BlankNothing();
    var e := AtEnd(l);
    if e != "" {
      assert Spaced(l, []) + Whitespace(e) == [Text(e, false)];
      assert [Text(e, false)][1..] == [] && "" + e == e;
      RunThenBlanks("", e);
    } else {
      assert Spaced(l, []) + Whitespace(e) == [];
    }
  }

  /** Of one node, likewise. */
  lemma {:induction false} SpacedSame(l: Layout, n: Node)
    requires l.depth >= 0 && !IsPlainText(n)
    ensures NormalNode(SpacedNode(l, n)) == NormalNode(n) <==> (n.Element? ==> Kept("", n.children))
    decreases n, 1
  {
    hide AfterAll, AtEnd, Spaced, NormalNodes, NormalAttributes, Normal;
    if n.Element? {
      FlowIsNormal(n.children);
      FlowIsNormal(SpacedChildren(Inside(l), n.children));
      if n.children != [] {
        SpacedFlow(Inside(l), "", n.children);
      }
    }
  }

  /** No text stands outside the elements. */
  predicate NoText(ns: seq<Node>) {
    forall k | 0 <= k < |ns| :: !IsPlainText(ns[k])
  }

  /** Outside the elements it is always lost. */
  lemma {:induction false} TopFlow(l: Layout, u: string, ns: seq<Node>)
    requires l.depth == 0 && Blanks(u) && NoText(ns)
    ensures Flow(u, Spaced(l, ns)) == Flow("", ns) <==> Kept("", ns)
    decreases |ns|
  {
    hide NormalNode, Run, Spaces, Blank, Ahead, SpacedNode;
    BlankNothing();
    BlanksBlank(u);
    RunThenBlanks(u, "");
    RunThenBlanks("", "");
    assert u + "" == u;
    if ns != [] {
      var l', n := After(l, ns[0]), ns[0];
      var a, b, rest := Ahead(l, n), Behind(l, n), Spaced(l', ns[1..]);
      LayoutBlanks(l, n);
      RunThenBlanks(u, a);
      assert Spaced(l, ns) == Whitespace(a) + [SpacedNode(l, n)] + (Whitespace(b) + rest);
      SpacedSame(l, n);
      FlowStep(u, a, SpacedNode(l, n), Whitespace(b) + rest);
      WhitespaceFirst(b, rest);
      assert Flow(u, Spaced(l, ns)) == [] + [NormalNode(SpacedNode(l, n))] + Flow(b, rest);
      assert Flow("", ns) == [] + [NormalNode(n)] + Flow("", ns[1..]);
      TopFlow(l', b, ns[1..]);
      SameParts([], NormalNode(SpacedNode(l, n)), Flow(b, rest), [], NormalNode(n), Flow("", ns[1..]));
    }
  }

  lemma BlanksBlank(u: string)
    requires Blanks(u)
    ensures Blank(u)
  {
  }

  lemma {:induction false} WhitespaceFirst(w: string, rest: seq<Node>)
    ensures Flow("", Whitespace(w) + rest) == Flow(w, rest)
  {
    hide NormalNode, Run;
    if w == "" {
      assert Whitespace(w) + rest == rest;
    } else {
      assert (Whitespace(w) + rest)[1..] == rest && "" + w == w;
    }
  }

  // ------------------------------------------------------------- the document with whitespace is well formed

  lemma {:induction false} WhitespaceWellFormed(w: string)
    requires Blanks(w)
    ensures AllWellFormed(Whitespace(w))
  {
    if w != "" {
      assert [Text(w, false)][1..] == [];
    }
  }

  lemma {:induction false} SpacedWellFormed(l: Layout, ns: seq<Node>)
    requires AllWellFormed(ns)
    ensures AllWellFormed(Spaced(l, ns))
    decreases ns, 0
  {
    hide WellFormed, Whitespace, Ahead, Behind, After, SpacedNode;
    if ns != [] {
      var n := SpacedNode(l, ns[0]);
      LayoutBlanks(l, ns[0]);
      WhitespaceWellFormed(Ahead(l, ns[0]));
      WhitespaceWellFormed(Behind(l, ns[0]));
      NodeSpacedWellFormed(l, ns[0]);
      assert [n][1..] == [] && AllWellFormed([n]);
      SpacedWellFormed(After(l, ns[0]), ns[1..]);
      AllWellFormedAppend(Whitespace(Ahead(l, ns[0])), [n]);
      AllWellFormedAppend(Whitespace(Ahead(l, ns[0])) + [n], Whitespace(Behind(l, ns[0])));
      AllWellFormedAppend(Whitespace(Ahead(l, ns[0])) + [n] + Whitespace(Behind(l, ns[0])), Spaced(After(l, ns[0]), ns[1..]));
    }
  }

  lemma {:induction false} NodeSpacedWellFormed(l: Layout, n: Node)
    requires WellFormed(n)
    ensures WellFormed(SpacedNode(l, n))
    decreases n, 1
  {
    hide Spaced, AfterAll, AtEnd, AllWellFormed, GoodAttributes, Whitespace;
    if n.Element? && n.children != [] {
      var e := AtEnd(AfterAll(Inside(l), n.children));
      LayoutBlanks(AfterAll(Inside(l), n.children), n);
      WhitespaceWellFormed(e);
      SpacedWellFormed(Inside(l), n.children);
      AllWellFormedAppend(Spaced(Inside(l), n.children), Whitespace(e));
      NoDeclarations(Inside(l), n.children);
      assert forall k | 0 <= k < |Whitespace(e)| :: !Whitespace(e)[k].Declaration? by { WhitespaceBlank(e); }
    } else if n.Element? {
      NoChildrenSpaced(Inside(l));
    }
  }

  lemma WhitespaceBlank(w: string)
    requires Blanks(w)
    ensures forall k | 0 <= k < |Whitespace(w)| :: IsPlainText(Whitespace(w)[k]) && Blank(Whitespace(w)[k].value)
  {
  }

  lemma {:induction false} NoDeclarations(l: Layout, ns: seq<Node>)
    requires forall k | 0 <= k < |ns| :: !ns[k].Declaration?
    ensures forall k | 0 <= k < |Spaced(l, ns)| :: !Spaced(l, ns)[k].Declaration?
    decreases |ns|
  {
    hide Ahead, Behind, After, SpacedChildren;
    if ns != [] {
      NoDeclarations(After(l, ns[0]), ns[1..]);
    }
  }

  /** The texts put in outside the elements are blank. */
  lemma {:induction false} SpacedBlank(l: Layout, ns: seq<Node>)
    requires NoText(ns)
    ensures forall k | 0 <= k < |Spaced(l, ns)| && IsPlainText(Spaced(l, ns)[k]) :: Blank(Spaced(l, ns)[k].value)
    decreases |ns|
  {
    hide Ahead, Behind, After, SpacedNode, Blank, Whitespace;
    if ns != [] {
      LayoutBlanks(l, ns[0]);
      WhitespaceBlank(Ahead(l, ns[0]));
      WhitespaceBlank(Behind(l, ns[0]));
      SpacedBlank(After(l, ns[0]), ns[1..]);
    }
  }

  /** So declarations stay where they may be. */
  lemma {:induction false} SpacedLocated(l: Layout, ns: seq<Node>)
    requires DeclarationsFirst(ns) && NoText(ns)
    ensures Located(true, [], Spaced(l, ns))
    decreases |ns|
  {
    hide Blank, Ahead, Behind, After, Whitespace;
    if ns != [] {
      LayoutBlanks(l, ns[0]);
      WhitespaceBlank(Ahead(l, ns[0]));
      WhitespaceBlank(Behind(l, ns[0]));
      if ns[0].Declaration? {
        SpacedLocated(After(l, ns[0]), ns[1..]);
      } else {
        assert forall k | 0 <= k < |ns| :: !ns[k].Declaration?;
        NoDeclarations(l, ns);
      }
    }
  }

  // ------------------------------------------------------------- reading pretty print

  lemma {:induction false} FlowTail(u: string, front: seq<Node>, tail: seq<Node>)
    requires front != [] && !IsPlainText(front[|front| - 1])
    requires forall k | 0 <= k < |tail| :: IsPlainText(tail[k]) && Blank(tail[k].value)
    ensures Flow(u, front + tail) == Flow(u, front)
    decreases |front|
  {
    hide NormalNode, Run, Blank;
    assert (front + tail)[1..] == front[1..] + tail;
    if |front| == 1 {
      TailFlow("", tail);
      assert front[1..] + tail == tail;
    } else if IsPlainText(front[0]) {
      FlowTail(u + front[0].value, front[1..], tail);
    } else {
      FlowTail("", front[1..], tail);
    }
  }

  lemma {:induction false} TailFlow(u: string, tail: seq<Node>)
    requires Blank(u) && forall k | 0 <= k < |tail| :: IsPlainText(tail[k]) && Blank(tail[k].value)
    ensures Flow(u, tail) == [] && Run("") == []
    decreases |tail|
  {
    if tail != [] {
      TailFlow(u + tail[0].value, tail[1..]);
    }
  }

  /** A document whose texts outside the elements are blank, and that begins with markup, is read as its normal form. */
  lemma {:induction false} BlankTextsRead(d: Document)
    requires AllWellFormed(d.children) && Located(true, [], d.children)
    requires d.children != [] && !IsPlainText(d.children[0])
    requires forall k | 0 <= k < |d.children| && IsPlainText(d.children[k]) :: Blank(d.children[k].value)
    ensures ReadDocument(PrintDocument(d), DEFAULT_OPTIONS) == Read(Document(d.bom, NormalNodes(d.children)))
  {
    hide ReadDocument, PrintNodes, NormalNodes, AllWellFormed, Escape, Blank, SkipWs, Matches, Passed, TakesMark, Flow;
    var s, ns := PrintDocument(d), d.children;
    var front := WithoutTrailingTexts(ns);
    var v := RunText(ns[|front|..]);
    PrintSplit(ns);
    RunWellFormed(ns, |front|);
    assert front == ns[..|front|] && ns == front + ns[|front|..];
    assert front != [] && front[0] == ns[0];
    BlankRun(ns[|front|..]);
    FlowIsNormal(ns);
    FlowIsNormal(front);
    FlowTail("", front, ns[|front|..]);
    if d.bom {
      BomRead(s, PrintNodes(ns));
      ReadFrom(s, true, front, v);
    } else {
      PrintFront(front);
      StartsWithMarkup(s);
      assert s[0..] == s;
      ReadFrom(s, false, front, v);
    }
  }

  lemma {:induction false} StartsWithMarkup(s: string)
    requires s != "" && s[0] == '<'
    ensures SkipWs(s, 0) == 0 && !Matches(s, 0, BOM)
  {
    MarkOfBom();
    NoMatch(s, 0, BOM, 0);
  }

  /** What a pretty-printed document is read as. */
  lemma {:induction false} PrettyThenRead(d: Document)
    requires WellFormedDocument(d) && NoText(d.children) && d.children != []
    ensures ReadDocument(PrettyDocument(d), DEFAULT_OPTIONS) == Read(Document(d.bom, NormalNodes(Spaced(TOP, d.children))))
  {
    hide ReadDocument, PrettyDocument, PrintDocument, NormalNodes, AllWellFormed, DeclarationsFirst, Located, Blank, After, SpacedNode;
    PrettyIsCompact(d);
    SpacedWellFormed(TOP, d.children);
    SpacedLocated(TOP, d.children);
    SpacedBlank(TOP, d.children);
    BlankTextsRead(SpacedDocument(d));
  }

  /**
   Main result.  Pretty printing and compact printing a document are read back alike if and only
   if no element follows a text that is not blank.
   */
  lemma {:induction false} PrettyExact(d: Document)
    requires WellFormedDocument(d) && NoText(d.children)
    ensures ReadDocument(PrettyDocument(d), DEFAULT_OPTIONS) == ReadDocument(PrintDocument(d), DEFAULT_OPTIONS) <==> Kept("", d.children)
  {
    hide ReadDocument, PrettyDocument, PrintDocument, NormalNodes, Spaced, WellFormedDocument, Flow;
    var ns := d.children;
    if ns == [] {
      PrettyIsCompact(d);
      NothingSpaced(TOP);
    } else {
      PrettyThenRead(d);
      MarkupThenRead(d);
      FlowIsNormal(ns);
      FlowIsNormal(Spaced(TOP, ns));
      TopFlow(TOP, "", ns);
    }
  }

  lemma {:induction false} CStringsAppend(a: seq<Node>, b: seq<Node>)
    requires CStrings(a) && CStrings(b)
    ensures CStrings(a + b)
  {
    hide CStringsIn;
    if a == [] {
      assert a + b == b;
    } else {
      assert (a + b)[1..] == a[1..] + b;
      CStringsAppend(a[1..], b);
    }
  }

  lemma WhitespaceCStrings(w: string)
    requires Blanks(w)
    ensures CStrings(Whitespace(w))
  {
    WhitespaceWellFormed(w);
    WellFormedCStrings(Whitespace(w));
  }

  lemma {:induction false} SpacedCStrings(l: Layout, ns: seq<Node>)
    requires CStrings(ns)
    ensures CStrings(Spaced(l, ns))
    decreases ns, 0
  {
    hide CStringsIn, Whitespace, Ahead, Behind, After, AfterAll, AtEnd, SpacedNode;
    if ns != [] {
      var n := SpacedNode(l, ns[0]);
      LayoutBlanks(l, ns[0]);
      WhitespaceCStrings(Ahead(l, ns[0]));
      WhitespaceCStrings(Behind(l, ns[0]));
      NodeSpacedCStrings(l, ns[0]);
      assert [n][1..] == [] && CStrings([n]);
      SpacedCStrings(After(l, ns[0]), ns[1..]);
      CStringsAppend(Whitespace(Ahead(l, ns[0])), [n]);
      CStringsAppend(Whitespace(Ahead(l, ns[0])) + [n], Whitespace(Behind(l, ns[0])));
      CStringsAppend(Whitespace(Ahead(l, ns[0])) + [n] + Whitespace(Behind(l, ns[0])), Spaced(After(l, ns[0]), ns[1..]));
    }
  }

  lemma {:induction false} NodeSpacedCStrings(l: Layout, n: Node)
    requires CStringsIn(n)
    ensures CStringsIn(SpacedNode(l, n))
    decreases n, 1
  {
    hide Spaced, AfterAll, AtEnd, CStrings, Whitespace;
    if n.Element? && n.children != [] {
      var e := AtEnd(AfterAll(Inside(l), n.children));
      LayoutBlanks(AfterAll(Inside(l), n.children), n);
      WhitespaceCStrings(e);
      SpacedCStrings(Inside(l), n.children);
      CStringsAppend(Spaced(Inside(l), n.children), Whitespace(e));
    } else if n.Element? {
      NoChildrenSpaced(Inside(l));
    }
  }

  /** What comes back from pretty printing is well formed. */
  lemma {:induction false} PrettyWellFormed(d: Document)
    requires CStrings(d.children) && ReadDocument(PrettyDocument(d), DEFAULT_OPTIONS) == Read(d)
    ensures WellFormedDocument(d)
  {
    hide ReadDocument, PrettyDocument, PrintDocument, Spaced, CStrings, WellFormedDocument;
    PrettyIsCompact(d);
    SpacedCStrings(TOP, d.children);
    PrintedNulFree(SpacedDocument(d));
    ReadIsWellFormed(PrettyDocument(d), DEFAULT_OPTIONS);
  }

  /**
   Main result.  A document without text outside its elements comes back from pretty printing if
   and only if it comes back from compact printing and no element follows a text in it.
   */
  lemma {:induction false} PrettyRoundTrip(d: Document)
    requires CStrings(d.children) && NoText(d.children)
    ensures ReadDocument(PrettyDocument(d), DEFAULT_OPTIONS) == Read(d) <==> Printable(d) && Kept("", d.children)
  {
    hide ReadDocument, PrettyDocument, PrintDocument, NormalNodes, Spaced, WellFormedDocument, SettledNodes, Kept, CStrings;
    RoundTrip(d);
    if ReadDocument(PrettyDocument(d), DEFAULT_OPTIONS) == Read(d) {
      PrettyWellFormed(d);
      PrettyExact(d);
      if d.children == [] {
        NothingKept();
        EmptyNotRead(d);
      } else {
        PrettyThenRead(d);
        MarkupThenRead(d);
        NormalNodesFixed(d.children);
        NormalNodesSettled(Spaced(TOP, d.children));
      }
    } else if Printable(d) {
      PrettyExact(d);
    }
  }

  lemma NothingKept()
    ensures Kept("", [])
  {
  }

  lemma {:induction false} EmptyNotRead(d: Document)
    requires WellFormedDocument(d) && d.children == []
    ensures ReadDocument(PrintDocument(d), DEFAULT_OPTIONS).ReadFailed?
  {
    hide ReadDocument, PrintDocument;
    PrintThenRead(d);
  }

  const MIXED := [Text("a", false), Element("b", [], []), Text("c", false)]

  lemma NotBlank(v: string)
    requires v != "" && !IsWhiteSpace(v[0])
    ensures !Blank(v)
  {
  }

  lemma MixedSettled()
    ensures SettledNodes(MIXED) && AllWellFormed(MIXED) && !Kept("", MIXED)
  {
    assert MIXED[1..] == [MIXED[1], MIXED[2]] && MIXED[1..][1..] == [MIXED[2]] && [MIXED[2]][1..] == [];
    NotBlank("a");
    NotBlank("c");
    assert "" + "a" == "a";
    assert SettledNodes([]) && SettledNode(MIXED[1]) && SettledNodes([MIXED[2]]);
  }

  lemma WithinElement(children: seq<Node>)
    requires SettledNodes(children) && AllWellFormed(children) && !Kept("", children)
    requires forall k | 0 <= k < |children| :: !children[k].Declaration?
    ensures var ns := [Element("p", [], children)];
      SettledNodes(ns) && WellFormedDocument(Document(false, ns)) && NoText(ns) && !Kept("", ns)
  {
    var ns := [Element("p", [], children)];
    assert ns[1..] == [] && NulFree("p") && IsName("p");
  }

  /** Mixed content does not survive: an element in the middle of a text. */
  lemma {:induction false} MixedNotKept()
    ensures var d := Document(false, [Element("p", [], MIXED)]);
      ReadDocument(PrettyDocument(d), DEFAULT_OPTIONS) != Read(d) && ReadDocument(PrintDocument(d), DEFAULT_OPTIONS) == Read(d)
  {
    hide ReadDocument, PrettyDocument, PrintDocument, NormalNodes;
    var ns := [Element("p", [], MIXED)];
    var d := Document(false, ns);
    MixedSettled();
    WithinElement(MIXED);
    WellFormedCStrings(ns);
    PrettyRoundTrip(d);
    RoundTrip(d);
  }

  // ------------------------------------------------------------- an example

  const INNER := [Element("b", [], []), Comment("c")]
  const SAMPLE := [Element("a", [], INNER), Element("d", [], [Text("t", false)])]

  /** Line breaks, four spaces a level, an empty line between elements on their own, and nothing around a text. */
  lemma SpacedSample()
    ensures var feed := Text("\n", false); var pad := Text("\n    ", false);
      Spaced(TOP, SAMPLE) ==
        [Element("a", [], [pad, INNER[0], pad, INNER[1], feed]), feed] + [feed, Element("d", [], [Text("t", false)]), feed]
  {
    var feed, pad := Text("\n", false), Text("\n    ", false);
    var l := Layout(1, false, -1);
    hide Spaces;
    Pads();
    assert INNER[1..] == [INNER[1]] && [INNER[1]][1..] == [];
    assert Spaced(l, INNER) == [pad, INNER[0], pad, INNER[1]] by { InnerSpaced(l); }
    assert AfterAll(l, INNER) == l by { InnerSpaced(l); }
    assert SpacedChildren(l, INNER) == [pad, INNER[0], pad, INNER[1], feed];
    var m := Layout(0, false, -1);
    DataSpaced(m);
    assert SAMPLE[1..] == [SAMPLE[1]];
    assert After(TOP, SAMPLE[0]) == m;
    assert Ahead(TOP, SAMPLE[0]) == "" && Behind(TOP, SAMPLE[0]) == "\n";
    hide Spaced, SpacedChildren, After, AfterAll;
    SampleFirst(m);
  }

  lemma SampleFirst(m: Layout)
    requires After(TOP, SAMPLE[0]) == m && Ahead(TOP, SAMPLE[0]) == "" && Behind(TOP, SAMPLE[0]) == "\n" && SAMPLE[1..] == [SAMPLE[1]]
    ensures Spaced(TOP, SAMPLE) == [SpacedNode(TOP, SAMPLE[0]), Text("\n", false)] + Spaced(m, [SAMPLE[1]])
  {
    hide After, SpacedNode, Ahead, Behind;
  }

  lemma InnerSpaced(l: Layout)
    requires l == Layout(1, false, -1)
    ensures var pad := Text("\n    ", false); Spaced(l, INNER) == [pad, INNER[0], pad, INNER[1]] && AfterAll(l, INNER) == l
  {
    hide Spaces;
    Pads();
    assert INNER[1..] == [INNER[1]] && [INNER[1]][1..] == [];
    assert After(l, INNER[0]) == l && After(l, INNER[1]) == l;
    assert Spaced(l, []) == [];
    assert Spaced(l, [INNER[1]]) == [Text("\n    ", false), INNER[1]];
  }

  lemma Pads()
    ensures Spaces(0) == "" && "\n" + Spaces(0) == "\n" && Spaces(1) == "    " && "\n" + Spaces(1) == "\n    "
  {
    assert Spaces(0) == "" && Spaces(1) == "    ";
  }

  lemma DataSpaced(m: Layout)
    requires m == Layout(0, false, -1)
    ensures var feed := Text("\n", false); Spaced(m, [SAMPLE[1]]) == [feed, SAMPLE[1], feed]
  {
    hide Spaces;
    Pads();
    var d := SAMPLE[1];
    assert d.children[1..] == [] && [d][1..] == [];
    assert AfterAll(Layout(1, false, -1), d.children) == Layout(1, false, 0);
    assert SpacedChildren(Layout(1, false, -1), d.children) == d.children;
    assert Spaced(After(m, d), []) == [];
  }

  // ------------------------------------------------------------- on buffers

  lemma PrettyCString(d: Document)
    requires CStrings(d.children)
    ensures NulFree(PrettyDocument(d))
  {
    hide PrettyDocument, PrintDocument, Spaced, CStrings;
    PrettyIsCompact(d);
    SpacedCStrings(TOP, d.children);
    PrintedNulFree(SpacedDocument(d));
  }

  /**
   End to end: a document object is printed with line breaks and indentation, and parsing what was
   printed gives an object that shows the same document.
   */
  method PrettyReread(doc: XMLDocument, ghost d: Document) returns (again: XMLDocument)
    requires A.Shows(doc, d) && doc.options == DEFAULT_OPTIONS && Printable(d) && NoText(d.children) && Kept("", d.children)
    modifies doc`children, doc.charBuffer
    ensures fresh(again) && again.errorID.None?
    ensures A.Shows(again, d) && A.Shows(doc, d)
  {
    hide A.Shows, Printable, ReadDocument, PrettyDocument, ParseDocument, CStrings, Kept;
    PrintableCStrings(d);
    PrettyRoundTrip(d);
    PrettyCString(d);
    var pr := new XMLPrinter(false);
    assert doc.charBuffer != pr.buffer.mem;
    A.PrintTo(doc, pr, d);
    var s := pr.buffer.mem[..pr.buffer.size - 1];
    PrettyWritten(d);
    CStrOfNulFree(s);
    again := new XMLDocument(true, false);
    again.Parse(s);
    A.ReadSucceeded(again);
    A.ParsedShows(again);
  }

  lemma PrettyWritten(d: Document)
    ensures VisitDocument(PrinterState("", false, true, 0, -1, [], true, false), d, true).out == PrettyDocument(d)
  {
  }

  lemma PrintableCStrings(d: Document)
    requires Printable(d)
    ensures CStrings(d.children)
  {
    WellFormedCStrings(d.children);
  }
}
