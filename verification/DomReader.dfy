/**
 The parser at work on the tree: `XMLNode::ParseDeep` and `XMLElement::ParseDeep`, driven by the
 text, making nodes on the way and deleting those that were read in vain.
 */
module DomReader {
  import opened Wrappers
  import opened DomForest
  import opened DomSteps
  import opened DomAttributes
  import opened DomDelete
  import opened DomTree
  import opened DomParse
  import opened XmlText
  import X = XmlTree
  import D = XmlDecode
  import S = XmlParserSpec

  // ------------------------------------------------------------- the text of one element

  predicate Slash(s: string, i: nat)
    requires i <= |s|
  {
    At(s, SkipWs(s, i)) == '/'
  }

  /** The name behind a `<`, if there is one. */
  function NameAt(s: string, i: nat): (r: Option<X.StrPair>)
    requires i <= |s|
    ensures r.Some? ==> i <= r.value.start < r.value.end <= |s|
  {
    var start := SkipWs(s, i) + if Slash(s, i) then 1 else 0;
    if start >= |s| || !IsNameStartChar(s[start]) then None
    else Some(X.StrPair(start, NameEnd(s, start + 1), D.PLAIN, true))
  }

  function ClosingOf(sealed: bool, slash: bool): S.ClosingType {
    if sealed then S.CLOSED else if slash then S.CLOSING else S.OPEN
  }

  /** Whether children follow the start tag. */
  predicate Opens(s: string, slash: bool, a: S.AttributesResult) {
    a.Attributes? && a.next != |s| && ClosingOf(a.sealed, slash) == S.OPEN
  }

  /** The element when nothing follows its start tag, or an error. */
  function Childless(name: X.StrPair, line: nat, slash: bool, a: S.AttributesResult): S.NodeResult {
    match a
    case AttributesFailed(error, l) => S.NodeFailed(Some(error), l)
    case Attributes(list, next, sealed) => S.NodeParsed(X.PElement(line, name, list, []), ClosingOf(sealed, slash), None, next)
  }

  /** The element once its children were read. */
  function Finished(name: X.StrPair, line: nat, list: seq<X.ParsedAttribute>, below: S.LoopResult): S.NodeResult {
    match below
    case LoopFailed(error, l) => S.NodeFailed(Some(error), l)
    case LoopEnded(_) => S.NodeFailed(None, line)
    case LoopClosed(children, endTag, after) => S.NodeParsed(X.PElement(line, name, list, children), S.OPEN, Some(endTag), after)
  }

  /** `XMLElement::ParseDeep` in its steps. */
  lemma ElementSteps(s: string, i: nat, line: nat, o: S.Options)
    requires i <= |s|
    ensures match NameAt(s, i)
      case None => S.ParseElement(s, i, line, o) == S.NodeFailed(None, line)
      case Some(name) =>
        var a := S.ParseAttributes(s, name.end, line, [], o);
        S.ParseElement(s, i, line, o) ==
          if Opens(s, Slash(s, i), a) then Finished(name, line, a.list, S.ParseLoop(s, a.next, false, [], o))
          else Childless(name, line, Slash(s, i), a)
  {
    hide S.ParseAttributes, S.ParseLoop, SkipWs, NameEnd, IsNameStartChar;
  }

  // ------------------------------------------------------------- the text of one turn of the loop

  /** What one turn of the loop does with the node it read. */
  datatype Outcome = Failed(error: S.XmlError, line: nat) | Closed(endTag: X.StrPair, next: nat) | Linked(node: X.Parsed, next: nat)

  predicate NameFits(s: string, r: S.NodeResult) {
    r.NodeParsed? && r.node.PElement? ==> r.node.name.start <= r.node.name.end <= |s|
  }

  function OutcomeOf(s: string, r: S.NodeResult, line: nat, inDocument: bool, acc: seq<X.Parsed>): Outcome
    requires NameFits(s, r)
  {
    match r
    case NodeFailed(error, l) => if error.Some? then Failed(error.value, l) else Failed(S.XML_ERROR_PARSING, line)
    case NodeParsed(node, closing, endTag, next) =>
      if node.PDeclaration? && !S.WellLocated(inDocument, acc) then Failed(S.XML_ERROR_PARSING_DECLARATION, line)
      else if node.PElement? && closing == S.CLOSING then Closed(node.name, next)
      else if node.PElement? && S.Mismatch(s, node.name, closing, endTag) then Failed(S.XML_ERROR_MISMATCHED_ELEMENT, line)
      else Linked(S.AfterComparison(node, endTag), next)
  }

  /** What the loop gives after a turn with that outcome. */
  function AfterTurn(s: string, out: Outcome, inDocument: bool, acc: seq<X.Parsed>, o: S.Options): S.LoopResult
    requires out.Linked? ==> out.next <= |s|
  {
    match out
    case Failed(error, l) => S.LoopFailed(error, l)
    case Closed(endTag, next) => S.LoopClosed(acc, endTag, next)
    case Linked(node, next) => S.ParseLoop(s, next, inDocument, acc + [node], o)
  }

  /** `XMLNode::ParseDeep`, one turn at a time. */
  lemma LoopStep(s: string, i: nat, inDocument: bool, acc: seq<X.Parsed>, o: S.Options)
    requires i <= |s|
    ensures SkipWs(s, i) == |s| ==> S.ParseLoop(s, i, inDocument, acc, o) == S.LoopEnded(acc)
    ensures SkipWs(s, i) < |s| ==> var (kind, start) := S.Identify(s, i);
      && i <= start <= |s| && (kind.KText? ==> SkipWs(s, start) < |s| && s[SkipWs(s, start)] != '<')
      && var line := LineAt(s, SkipWs(s, i));
      var r := S.ParseNode(s, start, kind, line, o);
      && NameFits(s, r) && (r.NodeParsed? ==> start < r.next <= |s|)
      && S.ParseLoop(s, i, inDocument, acc, o) ==
        AfterTurn(s, OutcomeOf(s, r, line, inDocument, acc), inDocument, acc, o)
  {
    hide S.ParseNode, LineAt, S.Mismatch, S.WellLocated;
  }

  // ------------------------------------------------------------- attributes

  /** `XMLElement::ParseAttributes`: one attribute after the other is made and linked last; one that is spoilt is made and freed. */
  method ReadAttributes(doc: DocumentTree, n: XMLNode, s: string, i: nat, line: nat, acc: seq<X.ParsedAttribute>, o: S.Options, ghost t0: Tree)
    returns (r: S.AttributesResult, ghost list: seq<X.Attribute>)
    requires doc.Valid() && n in doc.t.m && n.kind == ElementKind && i <= |s|
    requires n in t0.m && doc.t == WithAttributes(t0, n, X.DecodeAttributes(s, acc))
    modifies doc`t, doc`pools, n`attributes
    ensures r == S.ParseAttributes(s, i, line, acc, o)
    ensures doc.Valid() && doc.t == WithAttributes(t0, n, list)
    ensures r.Attributes? ==> list == X.DecodeAttributes(s, r.list)
    decreases |s| - i
  {
    hide DocumentTree.Valid, WithAttributes, X.DecodeAttributes, X.PairValue, S.HasAttribute;
    list := X.DecodeAttributes(s, acc);
    var j := SkipWs(s, i);
    if j == |s| {
      return S.AttributesFailed(S.XML_ERROR_PARSING_ELEMENT, line), list;
    }
    if IsNameStartChar(s[j]) {
      var a := S.ParseAttribute(s, j, o);
      if a.NoAttribute? || S.HasAttribute(s, acc, X.PairValue(s, a.attribute.name)) {
        doc.SpoiltAttribute();
        return S.AttributesFailed(S.XML_ERROR_PARSING_ATTRIBUTE, LineAt(s, j)), list;
      }
      hide S.ParseAttribute, LineAt, SkipWs;
      PushRead(doc, n, s, acc, a.attribute, t0);
      r, list := ReadAttributes(doc, n, s, a.next, line, acc + [a.attribute], o, t0);
    } else if s[j] == '>' {
      r := S.Attributes(acc, j + 1, false);
    } else if s[j] == '/' && At(s, j + 1) == '>' {
      r := S.Attributes(acc, j + 2, true);
    } else {
      r := S.AttributesFailed(S.XML_ERROR_PARSING_ELEMENT, line);
    }
  }

  method PushRead(doc: DocumentTree, n: XMLNode, s: string, acc: seq<X.ParsedAttribute>, a: X.ParsedAttribute, ghost t0: Tree)
    requires doc.Valid() && n in doc.t.m && n.kind == ElementKind
    requires n in t0.m && doc.t == WithAttributes(t0, n, X.DecodeAttributes(s, acc))
    modifies doc`t, doc`pools, n`attributes
    ensures doc.Valid() && n in doc.t.m && doc.t == WithAttributes(t0, n, X.DecodeAttributes(s, acc + [a]))
  {
    hide DomSteps.Good, Synced, WithAttributes, SameLinks;
    var one := X.Attribute(X.PairValue(s, a.name), X.PairValue(s, a.value));
    ghost var list := X.DecodeAttributes(s, acc);
    X.DecodeAttributesAppend(s, acc, [a]);
    assert X.DecodeAttributes(s, [a]) == [one] by { assert [a][1..] == []; }
    hide X.DecodeAttributes;
    WithRest(t0, n, list);
    WithTwice(t0, n, list, list + [one]);
    doc.PushAttribute(n, one);
    WithRest(t0, n, list + [one]);
  }

  // ------------------------------------------------------------- nodes

  /** `ParseDeep` of a node just made: its value, its attributes and its children, as far as they go. */
  method ReadNode(doc: DocumentTree, node: XMLNode, s: string, i: nat, kind: S.Kind, line: nat, o: S.Options, ghost t: Tree)
    returns (r: S.NodeResult, ghost value: string, ghost list: seq<X.Attribute>, ghost ns: seq<X.Parsed>)
    requires doc.Valid() && Good(t, doc.root) && node !in t.m && node.document == doc.root
    requires node.form == NodeForm(kind) && node.kind in t.pools.nodes && doc.t == Added(t, node)
    requires i <= |s| && (kind.KText? ==> SkipWs(s, i) < |s| && s[SkipWs(s, i)] != '<')
    modifies doc`t, doc`pools, doc`lost, doc.t.m.Keys
    ensures r == S.ParseNode(s, i, kind, line, o) && doc.Valid()
    ensures Grown(Started(t, node, value, list), doc.t, node, s, ns)
    ensures r.NodeParsed? ==> FormOf(r.node) == node.form && AsParsed(s, r.node, value, list, ns)
    ensures r.NodeParsed? && r.closing == S.CLOSING ==> node.kind == ElementKind && doc.t == Started(t, node, value, list)
    ensures fresh(doc.t.m.Keys - old(doc.t.m.Keys)) && (r.NodeParsed? ==> doc.lost == old(doc.lost))
    decreases |s| - i, 1
  {
    hide Good, Synced, Grown, Added, Started, S.ParseElement, X.PairValue;
    if kind.KElement? {
      r, value, list, ns := ReadElement(doc, node, s, i, line, o, t);
    } else {
      r := if kind.KText? then S.ParsePlainText(s, i, line, o) else S.ParseMarkup(s, i, kind, line);
      list, ns := [], [];
      var text := if r.NodeParsed? then X.PairValue(s, r.node.value) else "";
      StartedBare(t, node, text);
      NodeStarted(t, node, s, text, []);
      doc.SetValue(node, text);
      value := text;
    }
  }

  /** What was put into the node is what the parsed node says. */
  ghost predicate AsParsed(s: string, n: X.Parsed, value: string, list: seq<X.Attribute>, ns: seq<X.Parsed>) {
    value == ValueOf(s, n) && list == AttributesOf(s, n) && ns == ChildrenOf(n)
  }

  /** `XMLElement::ParseDeep`. */
  method ReadElement(doc: DocumentTree, node: XMLNode, s: string, i: nat, line: nat, o: S.Options, ghost t: Tree)
    returns (r: S.NodeResult, ghost value: string, ghost list: seq<X.Attribute>, ghost ns: seq<X.Parsed>)
    requires doc.Valid() && Good(t, doc.root) && node !in t.m && node.kind == ElementKind && node.document == doc.root
    requires node.kind in t.pools.nodes && doc.t == Added(t, node) && i <= |s|
    modifies doc`t, doc`pools, doc`lost, doc.t.m.Keys
    ensures r == S.ParseElement(s, i, line, o) && doc.Valid()
    ensures Grown(Started(t, node, value, list), doc.t, node, s, ns)
    ensures r.NodeParsed? ==> r.node.PElement? && AsParsed(s, r.node, value, list, ns)
    ensures r.NodeParsed? && r.closing == S.CLOSING ==> doc.t == Started(t, node, value, list)
    ensures fresh(doc.t.m.Keys - old(doc.t.m.Keys)) && (r.NodeParsed? ==> doc.lost == old(doc.lost))
    decreases |s| - i, 0
  {
    hide Good, Synced, Grown, Added, Started, S.ParseElement, S.ParseAttributes, S.ParseLoop, X.PairValue, NameAt, Slash;
    ElementSteps(s, i, line, o);
    AddedKeys(t, node);
    var name := NameAt(s, i);
    if name == None {
      NothingStarted(t, node, s);
      return S.NodeFailed(None, line), "", [], [];
    }
    var a;
    a, value, list := ReadHead(doc, node, s, name.value, line, o, t);
    NodeStarted(t, node, s, value, list);
    ghost var t1 := doc.t;
    if Opens(s, Slash(s, i), a) {
      var below;
      below, ns := ParseDeep(doc, node, s, a.next, false, [], o, t1);
      r := Finished(name.value, line, a.list, below);
    } else {
      ns := [];
      r := Childless(name.value, line, Slash(s, i), a);
    }
  }

  lemma NothingStarted(t: Tree, c: XMLNode, s: string)
    requires c.kind in t.pools.nodes
    ensures Grown(Started(t, c, "", []), Added(t, c), c, s, [])
  {
    hide Grown;
    StartedBare(t, c, "");
    NodeStarted(t, c, s, "", []);
    assert Valued(Added(t, c), c, "").m == Added(t, c).m;
  }

  /** The name and the attributes of an element just made. */
  method ReadHead(doc: DocumentTree, node: XMLNode, s: string, name: X.StrPair, line: nat, o: S.Options, ghost t: Tree)
    returns (a: S.AttributesResult, ghost value: string, ghost list: seq<X.Attribute>)
    requires doc.Valid() && node.kind == ElementKind && node.kind in t.pools.nodes && doc.t == Added(t, node) && node in doc.t.m
    requires name.end <= |s|
    modifies doc`t, doc`pools, node`value, node`attributes
    ensures doc.Valid() && a == S.ParseAttributes(s, name.end, line, [], o) && value == X.PairValue(s, name)
    ensures doc.t == Started(t, node, value, list) && (a.Attributes? ==> list == X.DecodeAttributes(s, a.list))
  {
    hide Good, Synced, WithAttributes, S.ParseAttributes, X.PairValue;
    var text := X.PairValue(s, name);
    assert doc.t.m[node].attributes == [];
    doc.SetValue(node, text);
    WithSame(doc.t, node);
    value := text;
    a, list := ReadAttributes(doc, node, s, name.end, line, [], o, doc.t);
  }

  /** The end tag: counted as used, and deleted. */
  method DropEndTag(doc: DocumentTree, end: XMLNode, ghost t: Tree, ghost value: string, ghost list: seq<X.Attribute>)
    requires doc.Valid() && Good(t, doc.root) && end !in t.m && end.kind == ElementKind && end.document == doc.root && end.kind in t.pools.nodes
    requires doc.t == Started(t, end, value, list)
    modifies doc`t, doc`pools, doc.t.m.Keys
    ensures doc.Valid() && SameShape(t, doc.t)
  {
    hide Good, Synced, Started, Pruned, Taken;
    NewIsFree(t, doc.root, end);
    StartedRest(t, end, value, list);
    doc.DeleteNode(end);
    EndTagGone(t, doc.root, end, value, list, doc.t.pools);
  }

  /** A node read in vain: deleted with all below it, and not counted as used. */
  method DropRead(doc: DocumentTree, node: XMLNode, s: string, ghost t: Tree, ghost value: string, ghost list: seq<X.Attribute>, ghost ns: seq<X.Parsed>)
    requires doc.Valid() && Good(t, doc.root) && node !in t.m && node.kind in t.pools.nodes && node.kind != DocumentKind
    requires Grown(Started(t, node, value, list), doc.t, node, s, ns)
    modifies doc`t, doc`pools, doc`lost, doc.t.m.Keys
    ensures doc.Valid() && SameShape(t, doc.t)
  {
    hide Good, Grown, Started, Pruned, Taken, Takeable, SameShape;
    ghost var t2 := doc.t;
    VainOrphan(t, t2, doc.root, node, s, value, list, ns);
    assert node.parent == t2.m[node].parent;
    hide Synced;
    doc.DropNode(node);
    ReadInVain(t, t2, doc.root, node, s, value, list, ns, doc.t.pools);
  }

  lemma VainOrphan(t: Tree, t2: Tree, root: XMLNode, node: XMLNode, s: string, value: string, list: seq<X.Attribute>, ns: seq<X.Parsed>)
    requires Good(t, root) && Good(t2, root) && node !in t.m && node.kind in t.pools.nodes && node.kind != DocumentKind
    requires Grown(Started(t, node, value, list), t2, node, s, ns)
    ensures node in t2.m && node !in t2.pending && node != root && t2.m[node].parent == null
  {
    hide Good, Grown, Started, Pruned, Taken, Takeable, SameShape;
    ReadInVain(t, t2, root, node, s, value, list, ns, t.pools);
  }

  /** A node with all that was read below it, put last below `p`. */
  method PutRead(doc: DocumentTree, p: XMLNode, node: XMLNode, s: string, acc: seq<X.Parsed>, n: X.Parsed, ghost t0: Tree, ghost t: Tree)
    requires doc.Valid() && Good(t, doc.root) && Grown(t0, t, p, s, acc) && p in t.m
    requires node !in t.m && node.kind in t.pools.nodes && node.kind != DocumentKind && node.form == FormOf(n) && node.document == doc.root
    requires Grown(StartedAs(t, node, s, n), doc.t, node, s, ChildrenOf(n))
    modifies doc`t, doc`pools, doc.t.m.Keys
    ensures doc.Valid() && p in doc.t.m && doc.t.m.Keys == old(doc.t.m.Keys)
    ensures Grown(t0, doc.t, p, s, acc + [n])
  {
    hide Good, Synced, Grown, Moved, Added, Started, AttributesOf, ChildrenOf, ValueOf, FormOf, Insertable;
    ghost var t2 := doc.t;
    Unrelated(t, t2, doc.root, p, node, s, ValueOf(s, n), AttributesOf(s, n), ChildrenOf(n));
    var added := doc.InsertEndChild(p, node);
    PutLast(t2, doc.t, doc.root, p, node);
    assert SameContents(t2.m, doc.t.m) && doc.t.m.Keys == t2.m.Keys;
    hide SameContents;
    GrownStep(t0, t, t2, doc.t, p, node, s, acc, n);
  }

  /** One turn of the loop: a node made, read, and put last below `p`, or deleted again. */
  method ReadOne(doc: DocumentTree, p: XMLNode, s: string, i: nat, kind: S.Kind, line: nat, inDocument: bool, acc: seq<X.Parsed>, o: S.Options, ghost t0: Tree)
    returns (out: Outcome)
    requires doc.Valid() && p in doc.t.m && Grown(t0, doc.t, p, s, acc)
    requires i <= |s| && (kind.KText? ==> SkipWs(s, i) < |s| && s[SkipWs(s, i)] != '<')
    requires NameFits(s, S.ParseNode(s, i, kind, line, o))
    modifies doc`t, doc`pools, doc`lost, doc.t.m.Keys
    ensures out == OutcomeOf(s, S.ParseNode(s, i, kind, line, o), line, inDocument, acc)
    ensures doc.Valid() && p in doc.t.m && fresh(doc.t.m.Keys - old(doc.t.m.Keys))
    ensures Grown(t0, doc.t, p, s, if out.Linked? then acc + [out.node] else acc)
    ensures !out.Failed? ==> doc.lost == old(doc.lost)
    decreases |s| - i, 2
  {
    hide Good, Synced, Grown, Moved, Added, Started, S.ParseNode, AttributesOf, ChildrenOf, ValueOf, FormOf, Insertable, S.AfterComparison,
         S.Mismatch, S.WellLocated, SameShape;
    ghost var t := doc.t;
    ghost var keys := t.m.Keys;
    var node := doc.NewNode(NodeForm(kind));
    AddedKeys(t, node);
    var r;
    ghost var value, list, ns;
    r, value, list, ns := ReadNode(doc, node, s, i, kind, line, o, t);
    assert fresh(doc.t.m.Keys - keys);
    out := OutcomeOf(s, r, line, inDocument, acc);
    hide OutcomeOf, NodeForm;
    Settle(doc, p, node, s, acc, r, out, t0, t, value, list, ns);
  }

  /** Whether the outcome is the one for what was read. */
  ghost predicate Fitting(r: S.NodeResult, out: Outcome) {
    match out
    case Failed(_, _) => true
    case Closed(_, _) => r.NodeParsed? && r.closing == S.CLOSING
    case Linked(n, _) => r.NodeParsed? && n == S.AfterComparison(r.node, r.endTag)
  }

  /** What becomes of the node that was read. */
  method Settle(doc: DocumentTree, p: XMLNode, node: XMLNode, s: string, acc: seq<X.Parsed>, r: S.NodeResult, out: Outcome, ghost t0: Tree, ghost t: Tree,
                ghost value: string, ghost list: seq<X.Attribute>, ghost ns: seq<X.Parsed>)
    requires doc.Valid() && Good(t, doc.root) && Grown(t0, t, p, s, acc) && p in t.m && Fitting(r, out)
    requires node !in t.m && node.kind in t.pools.nodes && node.form != DocumentForm && node.document == doc.root
    requires Grown(Started(t, node, value, list), doc.t, node, s, ns)
    requires r.NodeParsed? ==> FormOf(r.node) == node.form && AsParsed(s, r.node, value, list, ns)
    requires r.NodeParsed? && r.closing == S.CLOSING ==> node.kind == ElementKind && doc.t == Started(t, node, value, list)
    modifies doc`t, doc`pools, doc`lost, doc.t.m.Keys
    ensures doc.Valid() && p in doc.t.m && doc.t.m.Keys <= old(doc.t.m.Keys)
    ensures Grown(t0, doc.t, p, s, if out.Linked? then acc + [out.node] else acc)
    ensures !out.Failed? ==> doc.lost == old(doc.lost)
  {
    hide Good, Synced, Grown, Started, AttributesOf, ChildrenOf, ValueOf, FormOf, S.AfterComparison, SameShape;
    OlderKept(t, doc.t, node, s, value, list, ns);
    match out {
      case Failed(_, _) =>
        DropRead(doc, node, s, t, value, list, ns);
        BackAgain(t0, t, doc.t, p, s, acc);
      case Closed(_, _) =>
        DropEndTag(doc, node, t, value, list);
        BackAgain(t0, t, doc.t, p, s, acc);
      case Linked(_, _) =>
        PutRead(doc, p, node, s, acc, r.node, t0, t);
        GrownAfter(t0, doc.t, p, s, acc, r.node, r.endTag);
    }
  }

  lemma OlderKept(t: Tree, t2: Tree, node: XMLNode, s: string, value: string, list: seq<X.Attribute>, ns: seq<X.Parsed>)
    requires node.kind in t.pools.nodes && Grown(Started(t, node, value, list), t2, node, s, ns)
    ensures t.m.Keys <= t2.m.Keys
  {
    StartedRest(t, node, value, list);
    hide ListsGrown, Started, SameContent;
    forall x | x in t.m ensures x in t2.m {
      assert x in t.m[node := Contents(value, list)];
    }
  }

  lemma BackAgain(t0: Tree, t: Tree, t': Tree, p: XMLNode, s: string, acc: seq<X.Parsed>)
    requires Grown(t0, t, p, s, acc) && SameShape(t, t')
    ensures Grown(t0, t', p, s, acc) && t'.m.Keys == t.m.Keys
  {
    GrownSame(t0, t, t', p, s, acc);
  }

  /**
   `XMLNode::ParseDeep`, for the tree: links below `p` what the parser makes of the text from `i`
   on, until the end of the text or of the parent, or the first error.
   */
  method ParseDeep(doc: DocumentTree, p: XMLNode, s: string, i: nat, inDocument: bool, acc: seq<X.Parsed>, o: S.Options, ghost t0: Tree)
    returns (r: S.LoopResult, ghost read: seq<X.Parsed>)
    requires doc.Valid() && p in doc.t.m && i <= |s| && Grown(t0, doc.t, p, s, acc)
    modifies doc`t, doc`pools, doc`lost, doc.t.m.Keys
    ensures r == S.ParseLoop(s, i, inDocument, acc, o)
    ensures doc.Valid() && Grown(t0, doc.t, p, s, read) && fresh(doc.t.m.Keys - old(doc.t.m.Keys))
    ensures !r.LoopFailed? ==> read == r.nodes && doc.lost == old(doc.lost)
    decreases |s| - i, 3
  {
    hide Good, Synced, Grown, S.ParseLoop, S.ParseNode, OutcomeOf, S.Identify;
    LoopStep(s, i, inDocument, acc, o);
    read := acc;
    if SkipWs(s, i) == |s| {
      return S.LoopEnded(acc), acc;
    }
    var (kind, start) := S.Identify(s, i);
    var out := ReadOne(doc, p, s, start, kind, LineAt(s, SkipWs(s, i)), inDocument, acc, o, t0);
    match out {
      case Failed(error, l) => r := S.LoopFailed(error, l);
      case Closed(endTag, next) => r := S.LoopClosed(acc, endTag, next);
      case Linked(node, next) =>
        OutcomeNext(s, S.ParseNode(s, start, kind, LineAt(s, SkipWs(s, i)), o), LineAt(s, SkipWs(s, i)), inDocument, acc);
        r, read := ParseDeep(doc, p, s, next, inDocument, acc + [node], o, t0);
    }
  }

  lemma OutcomeNext(s: string, r: S.NodeResult, line: nat, inDocument: bool, acc: seq<X.Parsed>)
    requires NameFits(s, r) && OutcomeOf(s, r, line, inDocument, acc).Linked?
    ensures r.NodeParsed? && OutcomeOf(s, r, line, inDocument, acc).next == r.next
  {
  }

  // ------------------------------------------------------------- documents

  lemma RootThere(t: Tree, root: XMLNode)
    requires Good(t, root)
    ensures root in t.m && root in t.kids
  {
    hide Ranked, Tallied;
  }

  /** `XMLDocument::Parse` on a buffer; an end tag that closes nothing ends it without an error. */
  method ParseText(doc: DocumentTree, s: string, o: S.Options) returns (r: S.ParseResult, ghost read: seq<X.Parsed>)
    requires doc.Valid()
    modifies doc, doc.t.m.Keys
    ensures r == S.ParseDocument(s, o) && doc.Valid() && fresh(doc.t.m.Keys - old(doc.t.m.Keys))
    ensures Grown(old(doc.t), doc.t, doc.root, s, read)
    ensures r.ParsedDocument? ==> read == r.nodes && doc.writeBOM == r.bom && doc.lost == old(doc.lost)
  {
    hide Good, Synced, Grown, S.ParseLoop;
    RootThere(doc.t, doc.root);
    NothingGrown(doc.t, doc.root, s);
    var i := SkipWs(s, 0);
    doc.writeBOM := Matches(s, i, S.BOM);
    var p := if doc.writeBOM then i + 3 else i;
    if p == |s| {
      return S.ParseFailed(S.XML_ERROR_EMPTY_DOCUMENT, 0), [];
    }
    var below;
    below, read := ParseDeep(doc, doc.root, s, p, true, [], o, doc.t);
    r := match below
      case LoopFailed(error, line) => S.ParseFailed(error, line)
      case LoopEnded(nodes) => S.ParsedDocument(doc.writeBOM, nodes)
      case LoopClosed(nodes, _, _) => S.ParsedDocument(doc.writeBOM, nodes);
  }

  /** Below the document are the nodes read from the text. */
  ghost predicate HoldsNodes(t: Tree, root: XMLNode, s: string, ns: seq<X.Parsed>) {
    root in t.kids && MirrorsAll(t, t.kids[root], s, ns, {})
  }

  ghost predicate Emptied(t: Tree, root: XMLNode) {
    root in t.kids && t.kids[root] == [] && t.pending == {}
  }

  lemma {:induction false} ReadBelow(t: Tree, t': Tree, root: XMLNode, s: string, ns: seq<X.Parsed>)
    requires Emptied(t, root) && Grown(t, t', root, s, ns)
    ensures HoldsNodes(t', root, s, ns) && t'.pending == {}
  {
    hide MirrorsAll;
    assert t'.kids[root][0..] == t'.kids[root];
    MirrorsAllFrame(t', t', t'.kids[root], s, ns, t.kids.Keys, {});
  }

  /**
   `XMLDocument::Parse` on bytes: what was there goes first; and after an error nothing stays, nor
   is anything counted any more.
   */
  method Parse(doc: DocumentTree, bytes: string, o: S.Options) returns (r: S.ParseResult)
    requires doc.Valid() && doc.t.pending == {} && doc.lost == map[]
    modifies doc, doc.t.m.Keys
    ensures doc.Valid() && doc.t.pending == {} && doc.lost == map[] && fresh(doc.t.m.Keys - old(doc.t.m.Keys))
    ensures r == if CStr(bytes) == "" then S.ParseFailed(S.XML_ERROR_EMPTY_DOCUMENT, 0) else S.ParseDocument(CStr(bytes), o)
    ensures r.ParsedDocument? ==> HoldsNodes(doc.t, doc.root, CStr(bytes), r.nodes) && doc.writeBOM == r.bom
    ensures r.ParseFailed? ==> Emptied(doc.t, doc.root)
    ensures r.ParseFailed? && CStr(bytes) != "" ==> doc.t.m.Keys == {doc.root} && doc.pools == NoNodes()
  {
    hide Good, Synced, Bared, Grown, S.ParseDocument, Within, OutsideBare, HoldsNodes, Alone;
    ghost var t0 := doc.t;
    var balanced := doc.Clear();
    BaredEmpty(t0, doc.root, doc.t);
    if bytes == "" || bytes[0] == NUL {
      return S.ParseFailed(S.XML_ERROR_EMPTY_DOCUMENT, 0);
    }
    ghost var t1 := doc.t;
    ghost var read;
    r, read := ParseText(doc, CStr(bytes), o);
    ReadBelow(t1, doc.t, doc.root, CStr(bytes), read);
    if r.ParseFailed? {
      Discard(doc);
    }
  }

  /** After an error: the children go, and the pools are cleared. */
  method Discard(doc: DocumentTree)
    requires doc.Valid()
    modifies doc`t, doc`pools, doc`lost, doc.t.m.Keys
    ensures doc.Valid() && Emptied(doc.t, doc.root) && doc.lost == map[]
    ensures doc.t.m.Keys == {doc.root} && doc.pools == NoNodes() && doc.root in old(doc.t.m)
  {
    hide Good, Synced, Bared;
    ghost var t := doc.t;
    RootThere(t, doc.root);
    doc.DeleteChildren(doc.root);
    BaredEmpty(t, doc.root, doc.t);
    AloneGood(doc.t, doc.root);
    doc.ClearPools();
  }
}
