/**
 What the parser does to the tree, driven by the text: every node is created unlinked, gets its
 attributes and its children, and is put last below its parent; an end tag is a node too, found
 out to be one when it has been read, and deleted on the spot.
 */
module DomParse {
  import opened Wrappers
  import opened DomForest
  import opened DomSteps
  import opened DomAttributes
  import opened DomDelete
  import opened DomTree
  import opened XmlText
  import X = XmlTree
  import D = XmlDecode
  import S = XmlParserSpec

  /** What `Identify` creates. */
  function NodeForm(kind: S.Kind): Form {
    match kind
    case KElement => ElementForm
    case KText => TextForm
    case KCData => CDataForm
    case KComment => CommentForm
    case KDeclaration => DeclarationForm
    case KUnknown => UnknownForm
  }

  function FormOf(n: X.Parsed): Form {
    match n
    case PElement(_, _, _, _) => ElementForm
    case PText(_, _, cdata) => if cdata then CDataForm else TextForm
    case PComment(_, _) => CommentForm
    case PDeclaration(_, _) => DeclarationForm
    case PUnknown(_, _) => UnknownForm
  }

  function ValueOf(s: string, n: X.Parsed): string {
    X.PairValue(s, if n.PElement? then n.name else n.value)
  }

  function AttributesOf(s: string, n: X.Parsed): seq<X.Attribute> {
    if n.PElement? then X.DecodeAttributes(s, n.attributes) else []
  }

  function ChildrenOf(n: X.Parsed): seq<X.Parsed> {
    if n.PElement? then n.children else []
  }

  /** Below `x` the tree holds what the parsed node does, in nodes not there before. */
  ghost predicate Mirrors(t: Tree, x: XMLNode, s: string, n: X.Parsed, before: set<XMLNode>)
    decreases n, 1
  {
    && x in t.kids && x in t.m && x !in before && x.form == FormOf(n)
    && t.m[x].value == ValueOf(s, n) && t.m[x].attributes == AttributesOf(s, n)
    && if n.PElement? then MirrorsAll(t, t.kids[x], s, n.children, before) else t.kids[x] == []
  }

  ghost predicate MirrorsAll(t: Tree, xs: seq<XMLNode>, s: string, ns: seq<X.Parsed>, before: set<XMLNode>)
    decreases ns, 0
  {
    |xs| == |ns| && forall i | 0 <= i < |ns| :: Mirrors(t, xs[i], s, ns[i], before)
  }

  /** Newer nodes keep their children and what they hold. */
  ghost predicate Kept(t: Tree, t': Tree, before: set<XMLNode>) {
    forall y | y in t.kids && y in t.m && y !in before ::
      y in t'.kids && t'.kids[y] == t.kids[y] && y in t'.m && SameContent(t.m[y], t'.m[y])
  }

  predicate SameContent(l: Links, l': Links) {
    l'.value == l.value && l'.attributes == l.attributes
  }

  lemma {:induction false} MirrorsFrame(t: Tree, t': Tree, x: XMLNode, s: string, n: X.Parsed, before: set<XMLNode>, before': set<XMLNode>)
    requires Mirrors(t, x, s, n, before) && before' <= before && Kept(t, t', before)
    ensures Mirrors(t', x, s, n, before')
    decreases n, 1
  {
    if n.PElement? {
      MirrorsAllFrame(t, t', t.kids[x], s, n.children, before, before');
    }
  }

  lemma {:induction false} MirrorsAllFrame(t: Tree, t': Tree, xs: seq<XMLNode>, s: string, ns: seq<X.Parsed>, before: set<XMLNode>, before': set<XMLNode>)
    requires MirrorsAll(t, xs, s, ns, before) && before' <= before && Kept(t, t', before)
    ensures MirrorsAll(t', xs, s, ns, before')
    decreases ns, 0
  {
    forall i | 0 <= i < |ns| ensures Mirrors(t', xs[i], s, ns[i], before') {
      MirrorsFrame(t, t', xs[i], s, ns[i], before, before');
    }
  }

  /** Comparing names leaves the form of an element alone. */
  lemma {:induction false} MirrorsAfter(t: Tree, x: XMLNode, s: string, n: X.Parsed, endTag: Option<X.StrPair>, before: set<XMLNode>)
    requires Mirrors(t, x, s, n, before)
    ensures Mirrors(t, x, s, S.AfterComparison(n, endTag), before)
  {
  }

  /** The lists after `ns` were read as the last children of `p`. */
  ghost predicate ListsGrown(t: Tree, t': Tree, p: XMLNode, s: string, ns: seq<X.Parsed>) {
    && p in t.kids && p in t'.kids && t.kids[p] <= t'.kids[p]
    && MirrorsAll(t', t'.kids[p][|t.kids[p]|..], s, ns, t.kids.Keys)
    && (forall x | x in t.kids && x != p :: x in t'.kids && t'.kids[x] == t.kids[x])
  }

  /** No old node got another parent or other contents, and every new one has a parent. */
  ghost predicate NodesGrown(m: Memory, m': Memory) {
    && (forall x | x in m :: x in m' && m'[x].parent == m[x].parent && SameContent(m[x], m'[x]))
    && (forall x | x in m' && x !in m :: m'[x].parent != null)
  }

  /** `t'` is `t` with `ns` read as the last children of `p`. */
  ghost predicate Grown(t: Tree, t': Tree, p: XMLNode, s: string, ns: seq<X.Parsed>) {
    t'.pending == t.pending && ListsGrown(t, t', p, s, ns) && NodesGrown(t.m, t'.m)
  }

  lemma {:induction false} NothingGrown(t: Tree, p: XMLNode, s: string)
    requires p in t.kids
    ensures Grown(t, t, p, s, [])
  {
    assert t.kids[p][|t.kids[p]|..] == [];
  }

  /** The same lists, parents and contents; only links of nodes in no list may differ. */
  ghost predicate SameShape(t: Tree, t': Tree) {
    && t'.kids == t.kids && t'.pending == t.pending && SameContents(t.m, t'.m)
    && forall x | x in t.m :: t'.m[x].parent == t.m[x].parent
  }

  lemma {:induction false} GrownSame(t0: Tree, t: Tree, t': Tree, p: XMLNode, s: string, ns: seq<X.Parsed>)
    requires Grown(t0, t, p, s, ns) && SameShape(t, t')
    ensures Grown(t0, t', p, s, ns)
  {
    hide MirrorsAll;
    assert Kept(t, t', t0.kids.Keys);
    MirrorsAllFrame(t, t', t.kids[p][|t0.kids[p]|..], s, ns, t0.kids.Keys, t0.kids.Keys);
  }

  // ------------------------------------------------------------- a node just made

  /** What a node just made holds once it was read, its children apart. */
  function Contents(value: string, list: seq<X.Attribute>): Links {
    NO_LINKS.(value := value, attributes := list)
  }

  /** A new node with its value and attributes, before its children are read. */
  ghost function Started(t: Tree, c: XMLNode, value: string, list: seq<X.Attribute>): Tree
    requires c.kind in t.pools.nodes
  {
    WithAttributes(Valued(Added(t, c), c, value), c, list)
  }

  /** The new node as the parsed one has it. */
  ghost function StartedAs(t: Tree, c: XMLNode, s: string, n: X.Parsed): Tree
    requires c.kind in t.pools.nodes
  {
    Started(t, c, ValueOf(s, n), AttributesOf(s, n))
  }

  lemma StartedRest(t: Tree, c: XMLNode, value: string, list: seq<X.Attribute>)
    requires c.kind in t.pools.nodes
    ensures var t' := Started(t, c, value, list);
      && t'.m == t.m[c := Contents(value, list)] && t'.kids == t.kids[c := []]
      && t'.pending == t.pending
  {
    assert Started(t, c, value, list).m == t.m[c := Contents(value, list)];
  }

  /** A node without attributes has only got its value. */
  lemma StartedBare(t: Tree, c: XMLNode, value: string)
    requires c.kind in t.pools.nodes
    ensures c in Added(t, c).m && Valued(Added(t, c), c, value) == Started(t, c, value, [])
  {
    WithSame(Valued(Added(t, c), c, value), c);
  }

  lemma NodeStarted(t: Tree, c: XMLNode, s: string, value: string, list: seq<X.Attribute>)
    requires c.kind in t.pools.nodes
    ensures c in Added(t, c).m && Started(t, c, value, list).m.Keys == Added(t, c).m.Keys
    ensures Grown(Started(t, c, value, list), Started(t, c, value, list), c, s, [])
  {
    StartedRest(t, c, value, list);
    NothingGrown(Started(t, c, value, list), c, s);
  }

  lemma {:induction false} StartedGood(t: Tree, root: XMLNode, c: XMLNode, value: string, list: seq<X.Attribute>)
    requires Good(t, root) && c !in t.m && c.kind == ElementKind && c.document == root
    ensures c.kind in t.pools.nodes && Good(Started(t, c, value, list), root)
  {
    hide Good;
    AddedGood(t, root, c);
    ValuedGood(Added(t, c), root, c, value);
    WithGood(Valued(Added(t, c), c, value), root, c, list);
  }

  /** An end tag leaves the tree as it was, whatever attributes it came with. */
  lemma {:induction false} EndTagGone(t: Tree, root: XMLNode, end: XMLNode, value: string, list: seq<X.Attribute>, pools: Pools)
    requires Good(t, root) && end !in t.m && end.kind == ElementKind && end.document == root
    ensures end.kind in t.pools.nodes && Takeable(Started(t, end, value, list), end)
    ensures var c := Taken(Started(t, end, value, list), end); Ranked(c.m, c.rank, c.top)
    ensures var r := Pruned(Taken(Started(t, end, value, list), end), end, pools);
      r.m == t.m && r.kids == t.kids && r.pending == t.pending
  {
    hide Started, Taken, Takeable, Ranked;
    StartedGood(t, root, end, value, list);
    StartedRest(t, end, value, list);
    var a := Started(t, end, value, list);
    NewIsFree(t, root, end);
    TakenGood(a, root, end);
    MarkedGood(a, root, end);
    var c := Taken(a, end);
    assert c.pending == t.pending + {end} by { hide Good; assert a.m[end].parent == null; }
    assert Ranked(c.m, c.rank, c.top) by { hide ForestOk, Tallied, RootOk; }
    forall x | x in c.m ensures Within(c.m, c.rank, c.top, x, end) <==> x == end {
      WithinSomeChild(c, root, end, x);
    }
    assert t.kids.Keys == t.m.Keys by { hide Ranked, Tallied, RootOk; }
    hide Good, Within;
    EndTagPruned(t, c, end, value, list);
  }

  lemma NewIsFree(t: Tree, root: XMLNode, c: XMLNode)
    requires Good(t, root) && c !in t.m
    ensures c !in t.pending && c != root
  {
    hide ForestOk, Ranked;
  }

  lemma EndTagPruned(t: Tree, c: Tree, end: XMLNode, value: string, list: seq<X.Attribute>)
    requires Ranked(c.m, c.rank, c.top) && end !in t.m && end !in t.pending && t.kids.Keys == t.m.Keys
    requires c.m == t.m[end := Contents(value, list)] && c.kids == t.kids[end := []] && c.pending == t.pending + {end}
    requires forall x | x in c.m :: Within(c.m, c.rank, c.top, x, end) <==> x == end
    ensures PrunedMemory(c.m, c.rank, c.top, end) == t.m && PrunedLists(c.m, c.kids, c.rank, c.top, end) == t.kids
    ensures c.pending - {end} == t.pending
  {
    hide Ranked, Within;
  }

  /** Climbing from a node among the older ones never meets a newer one. */
  lemma {:induction false} OldClimb(m: Memory, rank: Ranks, top: nat, older: set<XMLNode>, x: XMLNode, c: XMLNode)
    requires Ranked(m, rank, top) && older <= m.Keys && x in older && c !in older
    requires forall y | y in older :: m[y].parent != null ==> m[y].parent in older
    ensures !Within(m, rank, top, x, c)
    decreases top - rank[x]
  {
    if m[x].parent != null {
      OldClimb(m, rank, top, older, m[x].parent, c);
    }
  }

  /** Putting a parentless node somewhere gives it that parent, and leaves all other parents alone. */
  lemma {:induction false} MovedParents(t: Tree, t': Tree, root: XMLNode, p: XMLNode, i: nat, c: XMLNode, x: XMLNode)
    requires Good(t, root) && Good(t', root) && Moved(t, t', p, i, c) && c in t.m && t.m[c].parent == null && x in t.m
    ensures t'.m[x].parent == if x == c then p else t.m[x].parent
  {
    hide Good, Moved, Removed, Inserted, Spliced, Tallied, Ranked, SameContents;
    AppendedLists(t, t', root, p, i, c);
    InLists(t, t', root, p, c, x);
  }

  lemma {:induction false} AppendedLists(t: Tree, t': Tree, root: XMLNode, p: XMLNode, i: nat, c: XMLNode)
    requires Good(t, root) && Good(t', root) && Moved(t, t', p, i, c) && c in t.m && t.m[c].parent == null
    ensures p in t.kids && i <= |t.kids[p]| && t'.kids == Inserted(t.kids, p, i, c) && t'.m.Keys == t.m.Keys
    ensures ForestOk(t.m, t.kids) && ForestOk(t'.m, t'.kids)
  {
    hide ForestOk, Ranked, Tallied, RootOk;
    OrphanInNoList(t.m, t.kids, c);
  }

  lemma ParentIsLive(m: Memory, kids: Children, x: XMLNode)
    requires ForestOk(m, kids) && x in m && m[x].parent != null
    ensures m[x].parent in m
  {
    hide ListOk;
  }

  lemma {:induction false} InLists(t: Tree, t': Tree, root: XMLNode, p: XMLNode, c: XMLNode, x: XMLNode)
    requires p in t.kids && ForestOk(t.m, t.kids) && ForestOk(t'.m, t'.kids) && t'.m.Keys == t.m.Keys
    requires exists i :: 0 <= i <= |t.kids[p]| && t'.kids == Inserted(t.kids, p, i, c)
    requires c in t.m && t.m[c].parent == null && x in t.m
    ensures t'.m[x].parent == if x == c then p else t.m[x].parent
  {
    hide ListOk, Spliced;
    var i :| 0 <= i <= |t.kids[p]| && t'.kids == Inserted(t.kids, p, i, c);
    InSpliced(t.kids[p], i, c, x);
    var q, q' := t.m[x].parent, t'.m[x].parent;
    if q != null { ParentIsLive(t.m, t.kids, x); }
    if q' != null { ParentIsLive(t'.m, t'.kids, x); }
    hide ForestOk;
    if x == c {
      OnlyParentHasIt(t'.m, t'.kids, p, c);
    } else if q != null {
      OnlyParentHasIt(t.m, t.kids, q, x);
      OnlyParentHasIt(t'.m, t'.kids, q, x);
    } else if q' != null {
      OnlyParentHasIt(t'.m, t'.kids, q', x);
      OnlyParentHasIt(t.m, t.kids, q', x);
    }
  }

  // ------------------------------------------------------------- one more node

  lemma {:induction false} NodesStep(m0: Memory, m: Memory, m2: Memory, m4: Memory, p: XMLNode, node: XMLNode, value: string, list: seq<X.Attribute>)
    requires NodesGrown(m0, m) && node !in m && NodesGrown(m[node := Contents(value, list)], m2)
    requires SameContents(m2, m4) && forall x | x in m2 :: m4[x].parent == if x == node then p else m2[x].parent
    ensures NodesGrown(m0, m4)
  {
  }

  lemma {:induction false} ListsStep(t0: Tree, t: Tree, t1: Tree, t2: Tree, t4: Tree, p: XMLNode, node: XMLNode, s: string, ns: seq<X.Parsed>, n: X.Parsed)
    requires ListsGrown(t0, t, p, s, ns) && node !in t.kids && node !in t.m && t.kids.Keys == t.m.Keys
    requires t1.m == t.m[node := Contents(ValueOf(s, n), AttributesOf(s, n))] && t1.kids == t.kids[node := []]
    requires node.form == FormOf(n) && ListsGrown(t1, t2, node, s, ChildrenOf(n)) && NodesGrown(t1.m, t2.m)
    requires p in t2.kids && t4.kids == t2.kids[p := t2.kids[p] + [node]] && SameContents(t2.m, t4.m)
    ensures ListsGrown(t0, t4, p, s, ns + [n])
  {
    hide MirrorsAll, Kept, ValueOf, AttributesOf, FormOf, NodesGrown, ChildrenOf;
    StepFields(t, t1, t2, t4, p, node, n, s);
    var k := |t0.kids[p]|;
    var xs := t.kids[p][k..];
    assert t4.kids[p][k..] == xs + [node];
    assert t2.kids[node][0..] == t2.kids[node];
    StepKept(t0, t, t1, t2, t4, p, node, s, ns, n);
    MirrorsAllFrame(t, t4, xs, s, ns, t0.kids.Keys, t0.kids.Keys);
    MirrorsAllFrame(t2, t4, t2.kids[node], s, ChildrenOf(n), t1.kids.Keys, t0.kids.Keys);
    NewMirrors(t4, node, s, n, t0.kids.Keys);
    MirrorsMore(t4, xs, s, ns, node, n, t0.kids.Keys);
  }

  lemma ContentsCarry(m: Memory, m2: Memory, m4: Memory)
    requires NodesGrown(m, m2) && SameContents(m2, m4)
    ensures forall y | y in m :: y in m4 && SameContent(m[y], m4[y])
    ensures forall y | y in m2 :: y in m4 && SameContent(m2[y], m4[y])
  {
  }

  lemma KeptBut(a: Tree, b: Tree, p: XMLNode, before: set<XMLNode>)
    requires p in before && forall y | y in a.kids && y != p :: y in b.kids && b.kids[y] == a.kids[y]
    requires forall y | y in a.m :: y in b.m && SameContent(a.m[y], b.m[y])
    ensures Kept(a, b, before)
  {
    hide SameContent;
  }

  lemma {:induction false} StepKept(t0: Tree, t: Tree, t1: Tree, t2: Tree, t4: Tree, p: XMLNode, node: XMLNode, s: string, ns: seq<X.Parsed>, n: X.Parsed)
    requires ListsGrown(t0, t, p, s, ns) && node !in t.kids && node !in t.m && t.kids.Keys == t.m.Keys
    requires t1.m == t.m[node := Contents(ValueOf(s, n), AttributesOf(s, n))] && t1.kids == t.kids[node := []]
    requires ListsGrown(t1, t2, node, s, ChildrenOf(n)) && NodesGrown(t1.m, t2.m)
    requires p in t2.kids && t4.kids == t2.kids[p := t2.kids[p] + [node]] && SameContents(t2.m, t4.m)
    ensures Kept(t, t4, t0.kids.Keys) && Kept(t2, t4, t1.kids.Keys)
  {
    hide MirrorsAll, AttributesOf, ValueOf, ChildrenOf, SameContent, Kept, Contents, NodesGrown, SameContents;
    ContentsCarry(t1.m, t2.m, t4.m);
    StepLists(t, t1, t2, t4, p, node);
    assert p in t0.kids && p in t.kids && p in t1.kids;
    hide ListsGrown;
    assert forall y | y in t.m :: y in t1.m && t1.m[y] == t.m[y];
    KeptBut(t, t4, p, t0.kids.Keys);
    KeptBut(t2, t4, p, t1.kids.Keys);
  }

  lemma StepLists(t: Tree, t1: Tree, t2: Tree, t4: Tree, p: XMLNode, node: XMLNode)
    requires node !in t.kids && t1.kids == t.kids[node := []] && p in t2.kids && t4.kids == t2.kids[p := t2.kids[p] + [node]]
    requires forall x | x in t1.kids && x != node :: x in t2.kids && t2.kids[x] == t1.kids[x]
    ensures forall y | y in t.kids && y != p :: y in t4.kids && t4.kids[y] == t.kids[y]
    ensures forall y | y in t2.kids && y != p :: y in t4.kids && t4.kids[y] == t2.kids[y]
  {
  }

  /** The new node, once put last, holds what was put into it. */
  lemma StepFields(t: Tree, t1: Tree, t2: Tree, t4: Tree, p: XMLNode, node: XMLNode, n: X.Parsed, s: string)
    requires node !in t.kids && t1.m == t.m[node := Contents(ValueOf(s, n), AttributesOf(s, n))] && NodesGrown(t1.m, t2.m)
    requires SameContents(t2.m, t4.m)
    ensures node in t4.m && t4.m[node].value == ValueOf(s, n) && t4.m[node].attributes == AttributesOf(s, n)
  {
    hide ValueOf, AttributesOf;
    assert node in t1.m;
  }

  lemma NewMirrors(t: Tree, node: XMLNode, s: string, n: X.Parsed, before: set<XMLNode>)
    requires node in t.kids && node in t.m && node !in before && node.form == FormOf(n) && t.m[node].value == ValueOf(s, n) && t.m[node].attributes == AttributesOf(s, n)
    requires MirrorsAll(t, t.kids[node], s, ChildrenOf(n), before)
    ensures Mirrors(t, node, s, n, before)
  {
  }

  lemma MirrorsMore(t: Tree, xs: seq<XMLNode>, s: string, ns: seq<X.Parsed>, x: XMLNode, n: X.Parsed, before: set<XMLNode>)
    requires MirrorsAll(t, xs, s, ns, before) && Mirrors(t, x, s, n, before)
    ensures MirrorsAll(t, xs + [x], s, ns + [n], before)
  {
    hide Mirrors;
  }

  /** One more node read: made, its attributes and children read, and put last below `p`. */
  lemma {:induction false} GrownStep(t0: Tree, t: Tree, t2: Tree, t4: Tree, p: XMLNode, node: XMLNode, s: string, ns: seq<X.Parsed>, n: X.Parsed)
    requires Grown(t0, t, p, s, ns) && t.kids.Keys == t.m.Keys
    requires node !in t.m && node.form == FormOf(n) && node.kind in t.pools.nodes
    requires Grown(StartedAs(t, node, s, n), t2, node, s, ChildrenOf(n))
    requires p in t2.kids && t4.kids == t2.kids[p := t2.kids[p] + [node]] && t4.pending == t2.pending
    requires SameContents(t2.m, t4.m) && forall x | x in t2.m :: t4.m[x].parent == if x == node then p else t2.m[x].parent
    ensures Grown(t0, t4, p, s, ns + [n])
  {
    hide ListsGrown, NodesGrown, Started, SameContents;
    var t1 := StartedAs(t, node, s, n);
    StartedRest(t, node, ValueOf(s, n), AttributesOf(s, n));
    NodesStep(t0.m, t.m, t2.m, t4.m, p, node, ValueOf(s, n), AttributesOf(s, n));
    ListsStep(t0, t, t1, t2, t4, p, node, s, ns, n);
  }

  /** Comparing the names of the last node read does not change what it mirrors. */
  lemma {:induction false} GrownAfter(t0: Tree, t: Tree, p: XMLNode, s: string, ns: seq<X.Parsed>, n: X.Parsed, endTag: Option<X.StrPair>)
    requires Grown(t0, t, p, s, ns + [n])
    ensures Grown(t0, t, p, s, ns + [S.AfterComparison(n, endTag)])
  {
    hide Mirrors;
    var xs := t.kids[p][|t0.kids[p]|..];
    var ns' := ns + [S.AfterComparison(n, endTag)];
    forall i | 0 <= i < |ns'| ensures Mirrors(t, xs[i], s, ns'[i], t0.kids.Keys) {
      assert Mirrors(t, xs[i], s, (ns + [n])[i], t0.kids.Keys);
      if i == |ns| {
        MirrorsAfter(t, xs[i], s, n, endTag, t0.kids.Keys);
      }
    }
  }

  /** A parentless node put last below `p`. */
  lemma {:induction false} PutLast(t: Tree, t': Tree, root: XMLNode, p: XMLNode, c: XMLNode)
    requires Good(t, root) && Good(t', root) && c in t.m && t.m[c].parent == null && p in t.kids
    requires Moved(t, t', p, |Without(t.kids[p], c)|, c)
    ensures t'.kids == t.kids[p := t.kids[p] + [c]] && t'.pending == t.pending
    ensures SameContents(t.m, t'.m) && forall x | x in t.m :: t'.m[x].parent == if x == c then p else t.m[x].parent
  {
    hide Good, Removed, Inserted, Without;
    PutLastLists(t, t', root, p, c);
    forall x | x in t.m ensures t'.m[x].parent == if x == c then p else t.m[x].parent {
      MovedParents(t, t', root, p, |Without(t.kids[p], c)|, c, x);
    }
  }

  lemma {:induction false} PutLastLists(t: Tree, t': Tree, root: XMLNode, p: XMLNode, c: XMLNode)
    requires Good(t, root) && Good(t', root) && c in t.m && t.m[c].parent == null && p in t.kids
    requires Moved(t, t', p, |Without(t.kids[p], c)|, c)
    ensures t'.kids == t.kids[p := t.kids[p] + [c]]
  {
    hide Good, Moved, Without, Spliced;
    AppendedLists(t, t', root, p, |Without(t.kids[p], c)|, c);
    OnlyParentHasIt(t.m, t.kids, p, c);
    hide ForestOk;
    assert Without(t.kids[p], c) == t.kids[p];
    SplicedLast(t.kids[p], c);
  }

  lemma SplicedLast(ks: seq<XMLNode>, c: XMLNode)
    ensures Spliced(ks, |ks|, c) == ks + [c]
  {
    assert ks[..|ks|] == ks;
  }

  lemma AddedKeys(t: Tree, c: XMLNode)
    requires c.kind in t.pools.nodes
    ensures Added(t, c).m.Keys == t.m.Keys + {c}
  {
  }

  /** A node just made, whatever was read below it, is nowhere above the older nodes. */
  lemma {:induction false} Unrelated(t: Tree, t2: Tree, root: XMLNode, p: XMLNode, node: XMLNode, s: string, value: string, list: seq<X.Attribute>, ns: seq<X.Parsed>)
    requires Good(t, root) && p in t.m && node !in t.m && node.kind in t.pools.nodes && Good(t2, root)
    requires Grown(Started(t, node, value, list), t2, node, s, ns)
    ensures Insertable(t2, root, p, node) && p in t2.m && p in t2.kids && node in t2.m && t2.m[node].parent == null
    ensures t.kids.Keys == t.m.Keys && t2.kids.Keys == t2.m.Keys
  {
    hide ListsGrown, Tallied, RootOk, Started, NodesGrown;
    StartedRest(t, node, value, list);
    NewIsFree(t, root, node);
    assert t.kids.Keys == t.m.Keys && t2.kids.Keys == t2.m.Keys && t2.pending == t.pending;
    hide ForestOk;
    ParentsKept(t.m, t2.m, t.rank, t.top, node, value, list);
    OldClimb(t2.m, t2.rank, t2.top, t.m.Keys, p, node);
  }

  lemma ParentsKept(m: Memory, m': Memory, rank: Ranks, top: nat, node: XMLNode, value: string, list: seq<X.Attribute>)
    requires NodesGrown(m[node := Contents(value, list)], m') && node !in m && Ranked(m, rank, top)
    ensures m.Keys <= m'.Keys && node in m' && m'[node].parent == null
    ensures forall y | y in m :: m'[y].parent != null ==> m'[y].parent in m
  {
    assert node in m[node := Contents(value, list)];
  }

  // ------------------------------------------------------------- a node read in vain

  /** Climbing from a node newer than `t` ends at the node that was made, since the older lists have not changed. */
  lemma {:induction false} NewClimb(t: Tree, t2: Tree, root: XMLNode, node: XMLNode, x: XMLNode)
    requires Good(t, root) && Good(t2, root) && node !in t.m && x in t2.m && x !in t.m
    requires forall y | y in t.m :: y in t.kids && y in t2.kids && t2.kids[y] == t.kids[y]
    requires forall y | y in t2.m && y !in t.m && y != node :: t2.m[y].parent != null
    ensures Ranked(t2.m, t2.rank, t2.top) && Within(t2.m, t2.rank, t2.top, x, node)
    decreases t2.top - (if x in t2.rank then t2.rank[x] else 0)
  {
    hide Tallied, RootOk, ListOk;
    if x != node {
      var q := t2.m[x].parent;
      OnlyParentHasIt(t2.m, t2.kids, q, x);
      if q in t.m {
        OnlyParentHasIt(t.m, t.kids, q, x);
        assert false;
      }
      NewClimb(t, t2, root, node, q);
    }
  }

  /** Below a new node are exactly the new nodes. */
  lemma {:induction false} BelowNew(t: Tree, t2: Tree, root: XMLNode, node: XMLNode, s: string, value: string, list: seq<X.Attribute>, ns: seq<X.Parsed>, x: XMLNode)
    requires Good(t, root) && Good(t2, root) && node !in t.m && node.kind in t.pools.nodes && x in t2.m
    requires Grown(Started(t, node, value, list), t2, node, s, ns)
    ensures Ranked(t2.m, t2.rank, t2.top) && (Within(t2.m, t2.rank, t2.top, x, node) <==> x !in t.m)
  {
    hide Good, Grown, Started, Within, Ranked, NodesGrown;
    GoodKeys(t, root);
    GoodKeys(t2, root);
    OldLists(t, t2, node, s, value, list, ns);
    if x in t.m {
      OldParents(t, t2, root, node, value, list);
      OldClimb(t2.m, t2.rank, t2.top, t.m.Keys, x, node);
    } else {
      NewParents(t.m, t2.m, node, Contents(value, list));
      NewClimb(t, t2, root, node, x);
    }
  }

  lemma NewParents(m: Memory, m2: Memory, node: XMLNode, l: Links)
    requires NodesGrown(m[node := l], m2)
    ensures forall y | y in m2 && y !in m && y != node :: m2[y].parent != null
  {
    hide SameContent;
  }

  lemma {:induction false} OldParents(t: Tree, t2: Tree, root: XMLNode, node: XMLNode, value: string, list: seq<X.Attribute>)
    requires Good(t, root) && node !in t.m && NodesGrown(t.m[node := Contents(value, list)], t2.m)
    ensures t.m.Keys <= t2.m.Keys && forall y | y in t.m :: t2.m[y].parent != null ==> t2.m[y].parent in t.m
  {
    hide ForestOk, Tallied, RootOk, SameContent;
    ParentsKept(t.m, t2.m, t.rank, t.top, node, value, list);
  }

  /** A node read in vain leaves, once it is deleted with all below it, the tree as it was before. */
  lemma {:induction false} ReadInVain(t: Tree, t2: Tree, root: XMLNode, node: XMLNode, s: string, value: string, list: seq<X.Attribute>, ns: seq<X.Parsed>, pools: Pools)
    requires Good(t, root) && Good(t2, root) && node !in t.m && node.kind in t.pools.nodes && node.kind != DocumentKind
    requires Grown(Started(t, node, value, list), t2, node, s, ns)
    ensures node in t2.m && node !in t2.pending && node != root && t2.m[node].parent == null && Takeable(t2, node)
    ensures var c := Taken(t2, node); Ranked(c.m, c.rank, c.top) && SameShape(t, Pruned(c, node, pools))
  {
    hide Good, Within, Ranked, Taken, Takeable, Started, MirrorsAll, SameShape, NodesGrown, ListsGrown, Grown;
    VainFree(t, t2, root, node, s, value, list, ns);
    TakenGood(t2, root, node);
    MarkedGood(t2, root, node);
    var c := Taken(t2, node);
    GoodKeys(t, root);
    GoodKeys(t2, root);
    forall x | x in t2.m ensures Ranked(t2.m, t2.rank, t2.top) && (Within(t2.m, t2.rank, t2.top, x, node) <==> x !in t.m) {
      BelowNew(t, t2, root, node, s, value, list, ns, x);
    }
    OldLists(t, t2, node, s, value, list, ns);
    PrunedShape(t, c, node, Contents(value, list), pools);
  }

  /** What was made is in no list, and nothing waits. */
  lemma VainFree(t: Tree, t2: Tree, root: XMLNode, node: XMLNode, s: string, value: string, list: seq<X.Attribute>, ns: seq<X.Parsed>)
    requires Good(t, root) && node !in t.m && node.kind in t.pools.nodes && Grown(Started(t, node, value, list), t2, node, s, ns)
    ensures node in t2.m && t2.m[node].parent == null && t2.pending == t.pending && node !in t2.pending && node != root
  {
    hide Good, ListsGrown, Started;
    NewIsFree(t, root, node);
    StartedRest(t, node, value, list);
    assert node in t.m[node := Contents(value, list)];
  }

  /** What was read below the new node changed no older list. */
  lemma OldLists(t: Tree, t2: Tree, node: XMLNode, s: string, value: string, list: seq<X.Attribute>, ns: seq<X.Parsed>)
    requires node.kind in t.pools.nodes && t.kids.Keys == t.m.Keys && node !in t.m && Grown(Started(t, node, value, list), t2, node, s, ns)
    ensures NodesGrown(t.m[node := Contents(value, list)], t2.m)
    ensures forall x | x in t.kids :: x in t2.kids && t2.kids[x] == t.kids[x]
  {
    hide MirrorsAll, Started, NodesGrown;
    StartedRest(t, node, value, list);
  }

  lemma PrunedShape(t: Tree, c: Tree, node: XMLNode, l: Links, pools: Pools)
    requires Ranked(c.m, c.rank, c.top) && c.pending == t.pending + {node} && node !in t.pending && node !in t.m
    requires t.kids.Keys == t.m.Keys && NodesGrown(t.m[node := l], c.m)
    requires forall x | x in t.kids :: x in c.kids && c.kids[x] == t.kids[x]
    requires forall x | x in c.m :: Within(c.m, c.rank, c.top, x, node) <==> x !in t.m
    ensures SameShape(t, Pruned(c, node, pools))
  {
    hide Ranked, Within, NodesGrown, PrunedMemory, PrunedLists, SameContents;
    PrunedNodes(t.m, c.m, c.rank, c.top, node, l);
    PrunedKids(t, c, node, l);
    assert t.pending + {node} - {node} == t.pending;
  }

  lemma PrunedNodes(m: Memory, m2: Memory, rank: Ranks, top: nat, node: XMLNode, l: Links)
    requires Ranked(m2, rank, top) && node !in m && NodesGrown(m[node := l], m2)
    requires forall x | x in m2 :: Within(m2, rank, top, x, node) <==> x !in m
    ensures var r := PrunedMemory(m2, rank, top, node);
      SameContents(m, r) && forall x | x in m :: r[x].parent == m[x].parent
  {
    hide Ranked, Within;
  }

  lemma PrunedKids(t: Tree, c: Tree, node: XMLNode, l: Links)
    requires Ranked(c.m, c.rank, c.top) && t.kids.Keys == t.m.Keys && node !in t.m && NodesGrown(t.m[node := l], c.m)
    requires forall x | x in t.kids :: x in c.kids && c.kids[x] == t.kids[x]
    requires forall x | x in c.m :: Within(c.m, c.rank, c.top, x, node) <==> x !in t.m
    ensures PrunedLists(c.m, c.kids, c.rank, c.top, node) == t.kids
  {
    hide Ranked, Within;
  }

  /** Reading leaves nothing untracked: every node read is under a parent, and every end tag was accounted for. */
  lemma {:induction false} ParseTracks(t: Tree, t': Tree, root: XMLNode, p: XMLNode, s: string, ns: seq<X.Parsed>, k: Kind)
    requires Good(t, root) && Good(t', root) && Grown(t, t', p, s, ns) && k != DocumentKind
    ensures k in t.pools.nodes && k in t'.pools.nodes && t'.pools.nodes[k].untracked == t.pools.nodes[k].untracked
    ensures t'.pools.attributes.untracked == t.pools.attributes.untracked
  {
    hide ListsGrown, Orphans, OfKind;
    assert t.pools.nodes[k] == Tally(t.m, t.pending, k) && t'.pools.nodes[k] == Tally(t'.m, t'.pending, k);
    assert t.pools.attributes.untracked == 0 && t'.pools.attributes.untracked == 0;
    hide Good;
    SameOrphans(t.m, t'.m, k);
  }

  lemma SameOrphans(m: Memory, m': Memory, k: Kind)
    requires NodesGrown(m, m')
    ensures Orphans(m', k) == Orphans(m, k)
  {
  }
}
