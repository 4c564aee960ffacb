/**
 What a compact printer writes with and without entity processing.
 */
module XmlWritten {
  import opened XmlText
  import opened XmlDecode
  import opened XmlTree
  import opened XmlParserSpec
  import opened XmlPrinterSpec
  import opened XmlEscape
  import opened XmlPrinter

  // ------------------------------------------------------------- the text

  /** A value as it is written; `e` says whether entities are. */
  function WrittenValue(v: string, restricted: bool, e: bool): string {
    if e then Escape(v, restricted) else v
  }

  function WrittenAttribute(a: Attribute, e: bool): string {
    " " + a.name + "=\"" + WrittenValue(a.value, false, e) + "\""
  }

  function WrittenAttributes(atts: seq<Attribute>, e: bool): string {
    if atts == [] then "" else WrittenAttribute(atts[0], e) + WrittenAttributes(atts[1..], e)
  }

  function WrittenNode(n: Node, e: bool): string
    decreases n, 1
  {
    match n
    case Element(name, atts, children) =>
      "<" + name + WrittenAttributes(atts, e) + if children == [] then "/>" else ">" + WrittenNodes(children, e) + ("</" + name + ">")
    case Text(v, cdata) => if cdata then "<![CDATA[" + v + "]]>" else WrittenValue(v, true, e)
    case Comment(v) => "<!--" + v + "-->"
    case Declaration(v) => "<?" + v + "?>"
    case Unknown(v) => "<!" + v + ">"
  }

  function WrittenNodes(ns: seq<Node>, e: bool): string
    decreases ns, 0
  {
    if ns == [] then "" else WrittenNode(ns[0], e) + WrittenNodes(ns[1..], e)
  }

  function WrittenDocument(d: Document, e: bool): string {
    (if d.bom then BOM else "") + WrittenNodes(d.children, e)
  }

  // ------------------------------------------------------------- with entity processing

  lemma {:induction false} WrittenAttributesPrinted(atts: seq<Attribute>)
    ensures WrittenAttributes(atts, true) == PrintAttributes(atts)
  {
    hide Escape;
    if atts != [] {
      WrittenAttributesPrinted(atts[1..]);
    }
  }

  /** With entity processing that is what `PrintNodes` says. */
  lemma {:induction false} WrittenPrinted(ns: seq<Node>)
    ensures WrittenNodes(ns, true) == PrintNodes(ns)
    decreases ns, 0
  {
    hide WrittenNode, PrintNode;
    if ns != [] {
      WrittenNodePrinted(ns[0]);
      WrittenPrinted(ns[1..]);
    }
  }

  lemma {:induction false} WrittenNodePrinted(n: Node)
    ensures WrittenNode(n, true) == PrintNode(n)
    decreases n, 1
  {
    hide Escape, WrittenAttributes, PrintAttributes, WrittenNodes, PrintNodes;
    if n.Element? {
      WrittenAttributesPrinted(n.attributes);
      WrittenPrinted(n.children);
      assert ">" + PrintNodes(n.children) + "</" + n.name + ">" == ">" + PrintNodes(n.children) + ("</" + n.name + ">");
    }
  }

  // ------------------------------------------------------------- the printer

  lemma {:induction false} AttributesWrittenAs(st: PrinterState, atts: seq<Attribute>)
    ensures PushAttributes(st, atts).out == st.out + WrittenAttributes(atts, st.processEntities)
    decreases |atts|
  {
    hide Escape;
    if atts == [] {
      assert st.out + "" == st.out;
    } else {
      var e := st.processEntities;
      var next := st.PushAttribute(atts[0].name, atts[0].value);
      assert next.out == st.out + WrittenAttribute(atts[0], e);
      AttributesWrittenAs(next, atts[1..]);
      ConcatAssociative(st.out, WrittenAttribute(atts[0], e), WrittenAttributes(atts[1..], e));
    }
  }

  /** In compact mode, with or without entity processing, visiting a node writes its text. */
  lemma {:induction false} VisitWritten(st: PrinterState, n: Node)
    requires st.compact
    ensures Visit(st, n).out == st.out + Pending(st) + WrittenNode(n, st.processEntities) && !Visit(st, n).justOpened
    decreases n, 1
  {
    hide Escape, WrittenAttributes, VisitAll, WrittenNodes, Spaces;
    match n
    case Element(name, atts, children) =>
      var first := st.OpenElement(name);
      var entered := PushAttributes(first, atts);
      AttributesKeep(first, atts);
      AttributesWrittenAs(first, atts);
      VisitAllWritten(entered, children);
      ElementWrittenAs(st, entered, n);
    case _ =>
      assert st.out + "" == st.out;
  }

  lemma {:induction false} ElementWrittenAs(st: PrinterState, entered: PrinterState, n: Node)
    requires st.compact && n.Element?
    requires entered.out == st.out + Pending(st) + ("<" + n.name) + WrittenAttributes(n.attributes, st.processEntities)
    requires entered == st.OpenElement(n.name).(out := entered.out)
    requires var inner := VisitAll(entered, n.children);
             && (n.children == [] ==> inner == entered)
             && (n.children != [] ==> inner.out == entered.out + ">" + WrittenNodes(n.children, st.processEntities) && !inner.justOpened)
    ensures VisitAll(entered, n.children).CloseElement().out == st.out + Pending(st) + WrittenNode(n, st.processEntities)
  {
    hide WrittenAttributes, VisitAll, WrittenNodes, Spaces;
    var e := st.processEntities;
    var inner := VisitAll(entered, n.children);
    var head := "<" + n.name + WrittenAttributes(n.attributes, e);
    var before := st.out + Pending(st);
    ConcatAssociative(before, "<" + n.name, WrittenAttributes(n.attributes, e));
    assert entered.out == before + head;
    assert inner.stack[|inner.stack| - 1] == n.name;
    if n.children == [] {
      ConcatAssociative(before, head, "/>");
    } else {
      var body, close := ">" + WrittenNodes(n.children, e), "</" + n.name + ">";
      assert inner.out == before + head + body by { ConcatAssociative(before + head, ">", WrittenNodes(n.children, e)); }
      ConcatAssociative(before + head, body, close);
      ConcatAssociative(before, head, body + close);
    }
  }

  lemma {:induction false} VisitAllWritten(st: PrinterState, ns: seq<Node>)
    requires st.compact
    ensures ns == [] ==> VisitAll(st, ns) == st
    ensures ns != [] ==> VisitAll(st, ns).out == st.out + Pending(st) + WrittenNodes(ns, st.processEntities) && !VisitAll(st, ns).justOpened
    decreases ns, 0
  {
    hide Visit, WrittenNode;
    if ns != [] {
      var e := st.processEntities;
      var next := Visit(st, ns[0]);
      VisitWritten(st, ns[0]);
      VisitAllWritten(next, ns[1..]);
      var before := st.out + Pending(st);
      if ns[1..] == [] {
        assert WrittenNodes(ns, e) == WrittenNode(ns[0], e) + "";
        assert WrittenNodes(ns, e) == WrittenNode(ns[0], e);
      } else {
        assert next.out + Pending(next) == next.out;
        ConcatAssociative(before, WrittenNode(ns[0], e), WrittenNodes(ns[1..], e));
      }
    }
  }

  /** A fresh compact printer writes that for a document with either option. */
  lemma {:induction false} DocumentWritten(d: Document, e: bool)
    ensures VisitDocument(PrinterState("", false, true, 0, -1, [], true, true), d, e).out == WrittenDocument(d, e)
  {
    hide VisitAll, WrittenNodes;
    var st := PrinterState("", false, true, 0, -1, [], true, true);
    var entered := Entered(st, d.bom, e);
    assert entered.out == if d.bom then BOM else "" by { assert "" + BOM == BOM; }
    VisitAllWritten(entered, d.children);
    if d.children == [] {
      NothingWritten(e);
      assert entered.out + "" == entered.out;
    } else {
      assert entered.out + "" + WrittenNodes(d.children, e) == entered.out + WrittenNodes(d.children, e);
    }
  }

  lemma NothingWritten(e: bool)
    ensures WrittenNodes([], e) == ""
  {
  }
}
