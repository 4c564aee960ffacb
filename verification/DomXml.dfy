/**
 The accounts of a document that was parsed from a text and cleared again.
 */
module DomXml {
  import opened DomForest
  import opened DomSteps
  import opened DomAttributes
  import opened DomDelete
  import opened DomTree
  import opened DomParse
  import opened DomReader
  import opened DomText
  import X = XmlTree
  import S = XmlParserSpec

  /** Where only the document has no parent, every node is within the document. */
  lemma {:induction false} OneRoot(m: Memory, rank: Ranks, top: nat, root: XMLNode, n: XMLNode)
    requires Ranked(m, rank, top) && n in m && forall x | x in m && x != root :: m[x].parent != null
    ensures Within(m, rank, top, n, root)
    decreases top - rank[n]
  {
    if n != root {
      OneRoot(m, rank, top, root, m[n].parent);
    }
  }

  /** After a parse into an empty document every node is within it. */
  lemma {:induction false} ParsedWithin(t: Tree, t': Tree, root: XMLNode, s: string, ns: seq<X.Parsed>)
    requires Good(t', root) && t.m.Keys == {root} && Grown(t, t', root, s, ns)
    ensures Ranked(t'.m, t'.rank, t'.top) && t'.pending == t.pending
    ensures forall n | n in t'.m :: Within(t'.m, t'.rank, t'.top, n, root)
  {
    hide ListsGrown, ForestOk, Tallied;
    forall n | n in t'.m ensures Within(t'.m, t'.rank, t'.top, n, root) {
      OneRoot(t'.m, t'.rank, t'.top, root, n);
    }
  }

  /** Clearing such a document leaves nothing but the document, and nothing outside it. */
  lemma {:induction false} AllGone(t: Tree, root: XMLNode, t': Tree)
    requires Good(t, root) && root in t.kids && Ranked(t.m, t.rank, t.top)
    requires t' == Bared(t, root, t.kids[root], |t.kids[root]|, t'.pools)
    requires forall n | n in t.m :: Within(t.m, t.rank, t.top, n, root)
    ensures t'.m.Keys == {root} && OutsideBare(t, root)
  {
    hide Good, Bared, Within, Ranked;
    BaredRoot(t, root, t');
  }

  /**
   Whatever text is parsed, the tree stands for what the parser reads from it; and when the document
   is cleared again, it is empty and the counters of all four pools agree.
   */
  method ParseAndClear(s: string, o: S.Options) returns (doc: DocumentTree, balanced: bool, ghost parsed: Tree)
    requires S.ParseDocument(s, o).ParsedDocument?
    ensures fresh(doc) && doc.Valid() && Good(parsed, doc.root)
    ensures S.ReadDocument(s, o) == S.Read(DocumentOf(parsed, doc.root, doc.writeBOM))
    ensures balanced && doc.t.m.Keys == {doc.root}
  {
    hide Good, Synced, S.ParseDocument, Grown, HoldsNodes, DocumentOf, Bared, Within, OutsideBare;
    doc := new DocumentTree();
    ghost var t := doc.t;
    assert t.m.Keys == {doc.root} && Emptied(t, doc.root);
    var r;
    ghost var read;
    r, read := ParseText(doc, s, o);
    parsed := doc.t;
    ParsedWithin(t, parsed, doc.root, s, read);
    ReadBelow(t, parsed, doc.root, s, read);
    ReadStandsFor(parsed, doc.root, s, o);
    hide EmptyTree;
    balanced := doc.Clear();
    AllGone(parsed, doc.root, doc.t);
  }

  /** An element put nowhere, with an attribute and no children, is enough to upset the comparison. */
  method OrphanWithAttribute(name: string, value: string) returns (balanced: bool)
    ensures !balanced
  {
    hide Good, Synced, OutsideBare, WithAttributes, Bared;
    var doc := new DocumentTree();
    ghost var t0 := doc.t;
    var element := doc.NewNode(ElementForm);
    ghost var t1 := doc.t;
    OrphanAdded(t0, element);
    doc.SetAttribute(element, name, value);
    WithRest(t1, element, Named([], name, value));
    ghost var t := doc.t;
    NotBare(t, doc.root, element);
    hide EmptyTree;
    balanced := doc.Clear();
  }

  lemma OrphanAdded(t: Tree, c: XMLNode)
    requires c.kind in t.pools.nodes
    ensures var t' := Added(t, c); c in t'.m && t'.m[c] == NO_LINKS && t'.pending == t.pending
  {
  }

  lemma {:induction false} NotBare(t: Tree, root: XMLNode, c: XMLNode)
    requires Good(t, root) && c in t.m && c != root && t.m[c].parent == null && t.m[c].attributes != []
    ensures Ranked(t.m, t.rank, t.top) && !OutsideBare(t, root)
  {
    hide ForestOk, Tallied, RootOk;
    assert !Within(t.m, t.rank, t.top, c, root);
  }
}
