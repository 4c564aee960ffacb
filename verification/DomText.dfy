/**
 From the heap to text and back: the document a tree of nodes stands for, printed by walking the
 links, and parsed into a new tree.
 */
module DomText {
  import opened DomForest
  import opened DomSteps
  import opened DomTree
  import opened DomParse
  import opened DomReader
  import opened XmlText
  import X = XmlTree
  import S = XmlParserSpec
  import P = XmlPrinterSpec
  import XmlTheorems

  // ------------------------------------------------------------- the document a tree stands for

  /** A node with all below it; what is below a node that is no element is never visited. */
  ghost function NodeOf(t: Tree, root: XMLNode, x: XMLNode): (r: X.Node)
    requires Good(t, root) && x in t.m
    decreases (RankOf(t, root, x); t.rank[x]), 1, 0
  {
    RankOf(t, root, x);
    match x.form
    case ElementForm => X.Element(t.m[x].value, t.m[x].attributes, NodesOf(t, root, t.kids[x], t.rank[x]))
    case TextForm => X.Text(t.m[x].value, false)
    case CDataForm => X.Text(t.m[x].value, true)
    case CommentForm => X.Comment(t.m[x].value)
    case DeclarationForm => X.Declaration(t.m[x].value)
    case _ => X.Unknown(t.m[x].value)
  }

  /** Nodes that rank below `bound`, one after the other. */
  ghost function NodesOf(t: Tree, root: XMLNode, xs: seq<XMLNode>, bound: nat): (r: seq<X.Node>)
    requires Good(t, root) && Below(t, xs, bound)
    ensures |r| == |xs|
    decreases bound, 0, |xs|
  {
    if xs == [] then [] else
      assert xs[0] in t.m && xs[0] in t.rank && t.rank[xs[0]] < bound;
      assert Below(t, xs[1..], bound);
      [NodeOf(t, root, xs[0])] + NodesOf(t, root, xs[1..], bound)
  }

  ghost predicate Below(t: Tree, xs: seq<XMLNode>, bound: nat) {
    forall i | 0 <= i < |xs| :: xs[i] in t.m && xs[i] in t.rank && t.rank[xs[i]] < bound
  }

  lemma {:induction false} RankOf(t: Tree, root: XMLNode, x: XMLNode)
    requires Good(t, root) && x in t.m
    ensures x in t.rank && x in t.kids && Below(t, t.kids[x], t.rank[x])
  {
    hide Tallied, RootOk, ListOk;
    forall i | 0 <= i < |t.kids[x]| ensures t.kids[x][i] in t.m && t.kids[x][i] in t.rank && t.rank[t.kids[x][i]] < t.rank[x] {
      OnlyParentHasIt(t.m, t.kids, x, t.kids[x][i]);
    }
  }

  ghost function DocumentOf(t: Tree, root: XMLNode, bom: bool): X.Document
    requires Good(t, root)
  {
    RootThere(t, root);
    RankOf(t, root, root);
    X.Document(bom, NodesOf(t, root, t.kids[root], t.rank[root]))
  }

  // ------------------------------------------------------------- what was parsed

  lemma {:induction false} MirrorNode(t: Tree, root: XMLNode, x: XMLNode, s: string, n: X.Parsed, before: set<XMLNode>)
    requires Good(t, root) && x in t.m && Mirrors(t, x, s, n, before)
    ensures NodeOf(t, root, x) == X.DecodeNode(s, n)
    decreases n, 1
  {
    hide Good, X.PairValue;
    if n.PElement? {
      RankOf(t, root, x);
      MirrorNodes(t, root, t.kids[x], t.rank[x], s, n.children, before);
    }
  }

  /** The nodes that mirror what was parsed stand for what the parser reads. */
  lemma {:induction false} MirrorNodes(t: Tree, root: XMLNode, xs: seq<XMLNode>, bound: nat, s: string, ns: seq<X.Parsed>, before: set<XMLNode>)
    requires Good(t, root) && Below(t, xs, bound) && MirrorsAll(t, xs, s, ns, before)
    ensures NodesOf(t, root, xs, bound) == X.DecodeNodes(s, ns)
    decreases ns, 0
  {
    hide Good, Mirrors, X.DecodeNode, NodeOf;
    if ns != [] {
      assert Mirrors(t, xs[0], s, ns[0], before);
      MirrorNode(t, root, xs[0], s, ns[0], before);
      MirrorNodes(t, root, xs[1..], bound, s, ns[1..], before);
    }
  }

  /** A tree that holds the nodes read stands for what the parser reads. */
  lemma {:induction false} ReadStandsFor(t: Tree, root: XMLNode, s: string, o: S.Options)
    requires Good(t, root) && S.ParseDocument(s, o).ParsedDocument? && HoldsNodes(t, root, s, S.ParseDocument(s, o).nodes)
    ensures S.ReadDocument(s, o) == S.Read(DocumentOf(t, root, S.ParseDocument(s, o).bom))
  {
    hide Good, Mirrors, MirrorsAll, S.ParseDocument;
    RootThere(t, root);
    RankOf(t, root, root);
    MirrorNodes(t, root, t.kids[root], t.rank[root], s, S.ParseDocument(s, o).nodes, {});
  }

  // ------------------------------------------------------------- printing by walking the links

  lemma {:induction false} OneMoreNode(t: Tree, root: XMLNode, xs: seq<XMLNode>, bound: nat, i: nat)
    requires Good(t, root) && Below(t, xs, bound) && i < |xs|
    ensures Below(t, xs[..i], bound) && Below(t, xs[..i + 1], bound)
    ensures P.PrintNodes(NodesOf(t, root, xs[..i + 1], bound)) == P.PrintNodes(NodesOf(t, root, xs[..i], bound)) + P.PrintNode(NodeOf(t, root, xs[i]))
  {
    hide Good, NodeOf, P.PrintNode;
    if i == 0 {
      assert xs[..0] == [] && xs[..1] == [xs[0]] && xs[..1][1..] == [];
      assert NodesOf(t, root, xs[..1], bound) == [NodeOf(t, root, xs[0])];
    } else {
      OneMoreNode(t, root, xs[1..], bound, i - 1);
      assert xs[..i + 1][1..] == xs[1..][..i] && xs[..i][1..] == xs[1..][..i - 1];
      assert NodesOf(t, root, xs[..i + 1], bound)[1..] == NodesOf(t, root, xs[1..][..i], bound);
      assert NodesOf(t, root, xs[..i], bound)[1..] == NodesOf(t, root, xs[1..][..i - 1], bound);
    }
  }

  /** `Accept` of one node with a compact printer. */
  method PrintNode(doc: DocumentTree, x: XMLNode) returns (out: string)
    requires doc.Valid() && x in doc.t.m && x.form != DocumentForm
    ensures out == P.PrintNode(NodeOf(doc.t, doc.root, x))
    decreases (RankOf(doc.t, doc.root, x); doc.t.rank[x]), 1
  {
    RankOf(doc.t, doc.root, x);
    assert x.value == doc.t.m[x].value && x.attributes == doc.t.m[x].attributes && x.firstChild == doc.t.m[x].first;
    match x.form
    case ElementForm =>
      var below := PrintChildren(doc, x);
      FirstChild(doc.t, doc.root, x);
      out := "<" + x.value + P.PrintAttributes(x.attributes) +
             if x.firstChild == null then "/>" else ">" + below + "</" + x.value + ">";
    case TextForm => out := P.Escape(x.value, true);
    case CDataForm => out := "<![CDATA[" + x.value + "]]>";
    case CommentForm => out := "<!--" + x.value + "-->";
    case DeclarationForm => out := "<?" + x.value + "?>";
    case UnknownForm => out := "<!" + x.value + ">";
  }

  lemma {:induction false} FirstChild(t: Tree, root: XMLNode, x: XMLNode)
    requires Good(t, root) && x in t.m
    ensures x in t.kids && (t.m[x].first == null <==> t.kids[x] == [])
  {
    hide Tallied, RootOk, Ranked;
    assert ListOk(t.m, x, t.kids[x]);
  }

  /** The walk along the children of a node. */
  method PrintChildren(doc: DocumentTree, n: XMLNode) returns (out: string)
    requires doc.Valid() && n in doc.t.m
    ensures n in doc.t.kids && n in doc.t.rank && Below(doc.t, doc.t.kids[n], doc.t.rank[n])
    ensures out == P.PrintNodes(NodesOf(doc.t, doc.root, doc.t.kids[n], doc.t.rank[n]))
    decreases (RankOf(doc.t, doc.root, n); doc.t.rank[n]), 0
  {
    hide Good, NodesOf, NodeOf, P.PrintNode, P.PrintNodes;
    ghost var t, root := doc.t, doc.root;
    RankOf(t, root, n);
    ghost var ks, i := t.kids[n], 0;
    assert n.firstChild == t.m[n].first;
    WalkFrom(t, root, n, 0);
    var child := n.firstChild;
    out := "";
    assert ks[..0] == [];
    NothingPrinted(t, root, t.rank[n]);
    while child != null
      invariant i <= |ks| && child == NodeAt(ks, i) && Below(t, ks[..i], t.rank[n])
      invariant out == P.PrintNodes(NodesOf(t, root, ks[..i], t.rank[n]))
      decreases |ks| - i
    {
      OneMoreNode(t, root, ks, t.rank[n], i);
      WalkFrom(t, root, n, i);
      var one := PrintNode(doc, child);
      out := out + one;
      assert child.next == t.m[child].next;
      child := child.next;
      i := i + 1;
    }
    assert ks[..i] == ks;
  }

  lemma NothingPrinted(t: Tree, root: XMLNode, bound: nat)
    requires Good(t, root)
    ensures Below(t, [], bound) && P.PrintNodes(NodesOf(t, root, [], bound)) == ""
  {
    hide Good;
  }

  /** The links lead from one child to the next. */
  lemma {:induction false} WalkFrom(t: Tree, root: XMLNode, n: XMLNode, i: nat)
    requires Good(t, root) && n in t.m && n in t.kids && i <= |t.kids[n]|
    ensures t.m[n].first == NodeAt(t.kids[n], 0)
    ensures i < |t.kids[n]| ==> var c := t.kids[n][i];
      c in t.m && c.form != DocumentForm && t.m[c].next == NodeAt(t.kids[n], i + 1) && c in t.rank && n in t.rank && t.rank[c] < t.rank[n]
  {
    hide Tallied;
    assert ListOk(t.m, n, t.kids[n]);
    if i < |t.kids[n]| {
      assert LinkOk(t.m, n, t.kids[n], i);
    }
  }

  /** `XMLDocument::Print` with a compact printer. */
  method PrintDocument(doc: DocumentTree) returns (out: string)
    requires doc.Valid()
    ensures out == P.PrintDocument(DocumentOf(doc.t, doc.root, doc.writeBOM))
  {
    RootThere(doc.t, doc.root);
    out := PrintChildren(doc, doc.root);
    if doc.writeBOM {
      out := S.BOM + out;
    }
  }

  // ------------------------------------------------------------- through text

  /** What a document tree stands for after a parse: what the specification reads, or nothing. */
  ghost predicate Shows(doc: DocumentTree, r: S.ReadResult)
    reads doc, doc.t.m.Keys
    requires doc.Valid()
  {
    match r
    case ReadFailed(_, _) => Emptied(doc.t, doc.root)
    case Read(d) => DocumentOf(doc.t, doc.root, doc.writeBOM) == d
  }

  /** Parsing bytes on the heap shows what reading them gives, whatever was there before. */
  method ParseShows(doc: DocumentTree, bytes: string, o: S.Options) returns (r: S.ParseResult)
    requires doc.Valid() && doc.t.pending == {} && doc.lost == map[]
    modifies doc, doc.t.m.Keys
    ensures doc.Valid() && doc.t.pending == {} && doc.lost == map[] && fresh(doc.t.m.Keys - old(doc.t.m.Keys))
    ensures Shows(doc, S.ReadDocument(CStr(bytes), o))
    ensures r.ParsedDocument? <==> S.ReadDocument(CStr(bytes), o).Read?
  {
    hide Good, Synced, S.ParseLoop, HoldsNodes, X.DecodeNodes, DocumentOf;
    r := Parse(doc, bytes, o);
    NothingRead(o);
    if r.ParsedDocument? {
      ReadStandsFor(doc.t, doc.root, CStr(bytes), o);
    }
  }

  lemma NothingRead(o: S.Options)
    ensures S.ParseDocument("", o) == S.ParseFailed(S.XML_ERROR_EMPTY_DOCUMENT, 0)
  {
    hide S.ParseLoop;
  }

  /**
   A document tree, however it was built and moved about, printed compactly and parsed into
   another: that one stands for the same document if and only if the document is printable.
   */
  method ThroughText(doc: DocumentTree) returns (ok: bool, copy: DocumentTree)
    requires doc.Valid() && XmlTheorems.CStrings(DocumentOf(doc.t, doc.root, doc.writeBOM).children)
    ensures fresh(copy) && copy.Valid()
    ensures Shows(copy, S.ReadDocument(P.PrintDocument(DocumentOf(doc.t, doc.root, doc.writeBOM)), S.DEFAULT_OPTIONS))
    ensures ok && DocumentOf(copy.t, copy.root, copy.writeBOM) == DocumentOf(doc.t, doc.root, doc.writeBOM)
      <==> XmlTheorems.Printable(DocumentOf(doc.t, doc.root, doc.writeBOM))
  {
    hide Good, Synced, XmlTheorems.Printable, P.PrintDocument, S.ReadDocument, XmlTheorems.CStrings, DocumentOf;
    ghost var d := DocumentOf(doc.t, doc.root, doc.writeBOM);
    var text := PrintDocument(doc);
    XmlTheorems.RoundTrip(d);
    PrintedCString(d);
    copy := new DocumentTree();
    assert copy.t.pending == {};
    hide EmptyTree;
    var r := ParseShows(copy, text, S.DEFAULT_OPTIONS);
    ok := r.ParsedDocument?;
  }

  lemma PrintedCString(d: X.Document)
    requires XmlTheorems.CStrings(d.children)
    ensures CStr(P.PrintDocument(d)) == P.PrintDocument(d)
  {
    hide P.PrintNodes, XmlTheorems.CStrings;
    XmlTheorems.PrintNulFree(d.children);
    CStrOfNulFree(P.PrintDocument(d));
  }
}
