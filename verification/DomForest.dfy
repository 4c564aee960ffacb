/**
 The links of a document tree: parent, first and last child, previous and next sibling,
 as `XMLNode` keeps them, against the sequences of children they stand for.

 `Links` is a snapshot of one node's pointers and contents and a `Memory` a snapshot of all
 live nodes, so that everything about a relinking is said about maps.
 */
module DomForest {
  import X = XmlTree

  /** What a node is; declarations and unknown markup come from the pool of the comments. */
  datatype Form = DocumentForm | ElementForm | TextForm | CDataForm | CommentForm | DeclarationForm | UnknownForm

  datatype Kind = DocumentKind | ElementKind | TextKind | CommentKind

  function PoolOf(form: Form): (k: Kind)
    ensures k == DocumentKind <==> form == DocumentForm
    ensures k == ElementKind <==> form == ElementForm
    ensures k == TextKind <==> form == TextForm || form == CDataForm
  {
    match form
    case DocumentForm => DocumentKind
    case ElementForm => ElementKind
    case TextForm => TextKind
    case CDataForm => TextKind
    case _ => CommentKind
  }

  /**
   A node: its kind is the pool it comes from; `document` is the document it was made for, itself
   when it is one. The value is the name of an element, and the text of everything else; the
   attributes of an element are a list of its own.
   */
  class XMLNode {
    const form: Form
    const kind := PoolOf(form)
    const document: XMLNode
    var value: string
    var attributes: seq<X.Attribute>
    var parent: XMLNode?
    var firstChild: XMLNode?
    var lastChild: XMLNode?
    var prev: XMLNode?
    var next: XMLNode?

    constructor (form: Form, document: XMLNode?)
      ensures this.form == form && kind == PoolOf(form) && this.document == (if document == null then this else document)
      ensures value == "" && attributes == []
      ensures parent == null && firstChild == null && lastChild == null && prev == null && next == null
    {
      this.form := form;
      if document == null {
        this.document := this;
      } else {
        this.document := document;
      }
      value := "";
      attributes := [];
      parent, firstChild, lastChild, prev, next := null, null, null, null, null;
    }

    /** `Unlink`: close the gap around `child`, whose own sibling links stay behind. */
    method Unlink(child: XMLNode)
      requires child.prev != child && child.next != child && (child.prev != null ==> child.prev != child.next)
      modifies this`firstChild, this`lastChild, child`parent, Opt(child.prev)`next, Opt(child.next)`prev
      ensures firstChild == if old(firstChild) == child then old(child.next) else old(firstChild)
      ensures lastChild == if old(lastChild) == child then old(child.prev) else old(lastChild)
      ensures child.parent == null
      ensures old(child.prev) != null ==> old(child.prev).next == old(child.next)
      ensures old(child.next) != null ==> old(child.next).prev == old(child.prev)
    {
      if child == firstChild {
        firstChild := firstChild.next;
      }
      if child == lastChild {
        lastChild := lastChild.prev;
      }
      if child.prev != null {
        child.prev.next := child.next;
      }
      if child.next != null {
        child.next.prev := child.prev;
      }
      child.parent := null;
    }

    /** The relinking of `InsertEndChild`, once the node is free. */
    method LinkEnd(addThis: XMLNode)
      requires addThis != this && addThis != lastChild
      modifies this`firstChild, this`lastChild, addThis`parent, addThis`prev, addThis`next, Opt(lastChild)`next
      ensures firstChild == if old(lastChild) == null then addThis else old(firstChild)
      ensures lastChild == addThis
      ensures addThis.parent == this && addThis.prev == old(lastChild) && addThis.next == null
      ensures old(lastChild) != null ==> old(lastChild).next == addThis
    {
      if lastChild != null {
        lastChild.next := addThis;
        addThis.prev := lastChild;
        lastChild := addThis;
        addThis.next := null;
      } else {
        firstChild := addThis;
        lastChild := addThis;
        addThis.prev := null;
        addThis.next := null;
      }
      addThis.parent := this;
    }

    /** The relinking of `InsertFirstChild`. */
    method LinkFirst(addThis: XMLNode)
      requires addThis != this && addThis != firstChild
      modifies this`firstChild, this`lastChild, addThis`parent, addThis`prev, addThis`next, Opt(firstChild)`prev
      ensures lastChild == if old(firstChild) == null then addThis else old(lastChild)
      ensures firstChild == addThis
      ensures addThis.parent == this && addThis.next == old(firstChild) && addThis.prev == null
      ensures old(firstChild) != null ==> old(firstChild).prev == addThis
    {
      if firstChild != null {
        firstChild.prev := addThis;
        addThis.next := firstChild;
        firstChild := addThis;
        addThis.prev := null;
      } else {
        firstChild := addThis;
        lastChild := addThis;
        addThis.prev := null;
        addThis.next := null;
      }
      addThis.parent := this;
    }

    /** The relinking of `InsertAfterChild`. */
    method LinkAfter(afterThis: XMLNode, addThis: XMLNode)
      requires afterThis.next != null && addThis != afterThis && addThis != afterThis.next
      modifies addThis`parent, addThis`prev, addThis`next, afterThis`next, afterThis.next`prev
      ensures addThis.parent == this && addThis.prev == afterThis && addThis.next == old(afterThis.next)
      ensures afterThis.next == addThis && old(afterThis.next).prev == addThis
    {
      addThis.prev := afterThis;
      addThis.next := afterThis.next;
      afterThis.next.prev := addThis;
      afterThis.next := addThis;
      addThis.parent := this;
    }
  }

  /** Nothing, or the one node pointed to. */
  ghost function Opt(n: XMLNode?): (r: set<XMLNode>) {
    if n == null then {} else {n}
  }

  datatype Links = Links(parent: XMLNode?, first: XMLNode?, last: XMLNode?, prev: XMLNode?, next: XMLNode?,
                         value: string, attributes: seq<X.Attribute>)

  type Memory = map<XMLNode, Links>
  type Children = map<XMLNode, seq<XMLNode>>
  type Ranks = map<XMLNode, nat>

  ghost predicate Distinct(ks: seq<XMLNode>) {
    forall i, j | 0 <= i < j < |ks| :: ks[i] != ks[j]
  }

  /** The node before position `i` of a list of siblings, and the node at it; null off the list. */
  function Before(ks: seq<XMLNode>, i: nat): XMLNode? {
    if 0 < i <= |ks| then ks[i - 1] else null
  }

  function NodeAt(ks: seq<XMLNode>, i: nat): XMLNode? {
    if i < |ks| then ks[i] else null
  }

  ghost predicate LinkOk(m: Memory, n: XMLNode, ks: seq<XMLNode>, i: nat)
    requires i < |ks|
  {
    ks[i] in m && m[ks[i]].parent == n && m[ks[i]].prev == Before(ks, i) && m[ks[i]].next == NodeAt(ks, i + 1)
  }

  /** The links of `n` and of its children form a doubly linked list that spells out `ks`. */
  ghost predicate ListOk(m: Memory, n: XMLNode, ks: seq<XMLNode>) {
    && n in m && m[n].first == NodeAt(ks, 0) && m[n].last == Before(ks, |ks|)
    && Distinct(ks)
    && forall i | 0 <= i < |ks| :: LinkOk(m, n, ks, i)
  }

  /** Every list is well formed, and every node with a parent is in its parent's list. */
  ghost predicate ForestOk(m: Memory, kids: Children) {
    && kids.Keys == m.Keys
    && (forall n | n in m :: ListOk(m, n, kids[n]))
    && (forall c | c in m && m[c].parent != null :: m[c].parent in m && c in kids[m[c].parent])
  }

  // ------------------------------------------------------------- sequences of children

  /** The list without `c`. */
  function Without(ks: seq<XMLNode>, c: XMLNode): (r: seq<XMLNode>)
    ensures c !in r && (c !in ks ==> r == ks)
  {
    if ks == [] then [] else if ks[0] == c then Without(ks[1..], c) else [ks[0]] + Without(ks[1..], c)
  }

  lemma {:induction false} WithoutMiddle(a: seq<XMLNode>, c: XMLNode, b: seq<XMLNode>)
    requires c !in a && c !in b
    ensures Without(a + [c] + b, c) == a + b
  {
    var ks := a + [c] + b;
    if a == [] {
      assert ks[1..] == b && a + b == b;
    } else {
      WithoutMiddle(a[1..], c, b);
      assert ks[0] == a[0] && ks[1..] == a[1..] + [c] + b;
      assert [a[0]] + (a[1..] + b) == a + b;
    }
  }

  lemma WithoutAt(ks: seq<XMLNode>, i: nat)
    requires i < |ks| && Distinct(ks)
    ensures Without(ks, ks[i]) == ks[..i] + ks[i + 1..]
  {
    assert ks == ks[..i] + [ks[i]] + ks[i + 1..];
    WithoutMiddle(ks[..i], ks[i], ks[i + 1..]);
  }

  lemma {:induction false} InWithout(ks: seq<XMLNode>, c: XMLNode, x: XMLNode)
    ensures x in Without(ks, c) <==> x in ks && x != c
  {
    if ks != [] {
      InWithout(ks[1..], c, x);
      assert ks == [ks[0]] + ks[1..];
    }
  }

  /** The children with `c` taken out of whatever list it is in. */
  function Removed(kids: Children, c: XMLNode): (r: Children)
    ensures r.Keys == kids.Keys
  {
    map n | n in kids :: Without(kids[n], c)
  }

  function Spliced(ks: seq<XMLNode>, i: nat, c: XMLNode): (r: seq<XMLNode>)
    requires i <= |ks|
  {
    ks[..i] + [c] + ks[i..]
  }

  lemma InSpliced(ks: seq<XMLNode>, i: nat, c: XMLNode, x: XMLNode)
    requires i <= |ks|
    ensures x in Spliced(ks, i, c) <==> x in ks || x == c
  {
    assert ks == ks[..i] + ks[i..];
  }

  /** The children with `c` put at position `i` of `p`'s list. */
  function Inserted(kids: Children, p: XMLNode, i: nat, c: XMLNode): (r: Children)
    requires p in kids && i <= |kids[p]|
  {
    kids[p := Spliced(kids[p], i, c)]
  }

  // ------------------------------------------------------------- unlinking

  /** The memory after `XMLNode::Unlink`; the child's own sibling links are left as they were. */
  function Unlinked(m: Memory, p: XMLNode, c: XMLNode): (r: Memory)
    requires p in m && c in m
    ensures r.Keys == m.Keys
  {
    map n | n in m :: UnlinkedNode(m, p, c, n)
  }

  function UnlinkedNode(m: Memory, p: XMLNode, c: XMLNode, n: XMLNode): Links
    requires p in m && c in m && n in m
  {
    var l := m[n];
    Links(if n == c then null else l.parent,
          if n == p && l.first == c then m[c].next else l.first,
          if n == p && l.last == c then m[c].prev else l.last,
          if n == m[c].next then m[c].prev else l.prev,
          if n == m[c].prev then m[c].next else l.next,
          l.value, l.attributes)
  }

  /** The position of a child in its parent's list. */
  lemma {:induction false} PositionOf(m: Memory, kids: Children, c: XMLNode) returns (i: nat)
    requires ForestOk(m, kids) && c in m && m[c].parent != null
    ensures m[c].parent in m && i < |kids[m[c].parent]| && kids[m[c].parent][i] == c
  {
    i :| 0 <= i < |kids[m[c].parent]| && kids[m[c].parent][i] == c;
  }

  /** A node is in the list of its parent and in no other. */
  lemma {:induction false} OnlyParentHasIt(m: Memory, kids: Children, n: XMLNode, c: XMLNode)
    requires ForestOk(m, kids) && n in m
    ensures c in kids[n] <==> c in m && m[c].parent == n
  {
    if c in kids[n] {
      var i :| 0 <= i < |kids[n]| && kids[n][i] == c;
      assert ListOk(m, n, kids[n]) && LinkOk(m, n, kids[n], i);
    }
  }

  lemma DistinctNeighbours(ks: seq<XMLNode>, i: nat, k: nat)
    requires Distinct(ks) && i < |ks| && k < |ks|
    ensures ks[k] == Before(ks, i) <==> k + 1 == i
    ensures ks[k] == NodeAt(ks, i + 1) <==> k == i + 1
    ensures ks[k] == ks[i] <==> k == i
  {
  }

  lemma {:induction false} UnlinkedOwnLink(m: Memory, p: XMLNode, ks: seq<XMLNode>, i: nat, j: nat)
    requires ListOk(m, p, ks) && i < |ks| && j + 1 < |ks| && ks[i] in m
    ensures LinkOk(Unlinked(m, p, ks[i]), p, ks[..i] + ks[i + 1..], j)
  {
    hide Distinct;
    var ks' := ks[..i] + ks[i + 1..];
    var k := if j < i then j else j + 1;
    assert ks'[j] == ks[k];
    assert Before(ks', j) == if k == i + 1 then Before(ks, i) else Before(ks, k);
    assert NodeAt(ks', j + 1) == if k + 1 == i then NodeAt(ks, i + 1) else NodeAt(ks, k + 1);
    assert LinkOk(m, p, ks, k) && LinkOk(m, p, ks, i);
    DistinctNeighbours(ks, i, k);
    hide Before, NodeAt;
  }

  lemma {:induction false} UnlinkedEnds(m: Memory, p: XMLNode, ks: seq<XMLNode>, i: nat)
    requires p in m && m[p].first == NodeAt(ks, 0) && m[p].last == Before(ks, |ks|)
    requires Distinct(ks) && i < |ks| && ks[i] in m && m[ks[i]].prev == Before(ks, i) && m[ks[i]].next == NodeAt(ks, i + 1)
    ensures var ks' := ks[..i] + ks[i + 1..];
      var l := UnlinkedNode(m, p, ks[i], p);
      Distinct(ks') && l.first == NodeAt(ks', 0) && l.last == Before(ks', |ks'|)
  {
    var ks' := ks[..i] + ks[i + 1..];
    assert ks[0] == ks[i] <==> i == 0;
    assert ks[|ks| - 1] == ks[i] <==> i == |ks| - 1;
    hide Distinct;
    if i > 0 {
      assert NodeAt(ks', 0) == ks[0];
    } else {
      assert NodeAt(ks', 0) == NodeAt(ks, 1);
    }
    if i < |ks| - 1 {
      assert Before(ks', |ks'|) == ks[|ks| - 1];
    } else {
      assert ks' == ks[..i];
    }
    DistinctWithout(ks, i);
  }

  lemma DistinctWithout(ks: seq<XMLNode>, i: nat)
    requires Distinct(ks) && i < |ks|
    ensures Distinct(ks[..i] + ks[i + 1..])
  {
  }

  lemma {:induction false} UnlinkedOwn(m: Memory, p: XMLNode, ks: seq<XMLNode>, i: nat)
    requires ListOk(m, p, ks) && i < |ks| && ks[i] in m
    ensures ListOk(Unlinked(m, p, ks[i]), p, Without(ks, ks[i]))
  {
    hide Distinct, NodeAt, Before, UnlinkedNode;
    WithoutAt(ks, i);
    var ks' := ks[..i] + ks[i + 1..];
    var m' := Unlinked(m, p, ks[i]);
    assert LinkOk(m, p, ks, i);
    UnlinkedEnds(m, p, ks, i);
    forall j | 0 <= j < |ks'| ensures LinkOk(m', p, ks', j) {
      UnlinkedOwnLink(m, p, ks, i, j);
    }
    hide LinkOk;
  }

  lemma {:induction false} UnlinkedOther(m: Memory, kids: Children, p: XMLNode, c: XMLNode, n: XMLNode)
    requires ForestOk(m, kids) && c in m && m[c].parent == p && n in m && n != p
    ensures ListOk(Unlinked(m, p, c), n, kids[n])
  {
    var ks := kids[n];
    var m' := Unlinked(m, p, c);
    var i := PositionOf(m, kids, c);
    assert ListOk(m, p, kids[p]) && LinkOk(m, p, kids[p], i);
    forall x | x == m[c].prev || x == m[c].next ensures x == null || (x in m && m[x].parent == p) {
      if x == m[c].prev && i > 0 { assert LinkOk(m, p, kids[p], i - 1); }
      if x == m[c].next && i + 1 < |kids[p]| { assert LinkOk(m, p, kids[p], i + 1); }
    }
    assert ListOk(m, n, ks);
    forall j | 0 <= j < |ks| ensures LinkOk(m', n, ks, j) {
      assert LinkOk(m, n, ks, j);
    }
  }

  /** After `Unlink` the child is in no list and every other list and child is as it was. */
  lemma {:induction false} UnlinkedForest(m: Memory, kids: Children, c: XMLNode)
    requires ForestOk(m, kids) && c in m && m[c].parent != null
    ensures m[c].parent in m && ForestOk(Unlinked(m, m[c].parent, c), Removed(kids, c))
  {
    hide ListOk;
    var p := m[c].parent;
    var m' := Unlinked(m, p, c);
    var kids' := Removed(kids, c);
    forall n | n in m' ensures ListOk(m', n, kids'[n]) {
      OnlyParentHasIt(m, kids, n, c);
      if n == p {
        var i := PositionOf(m, kids, c);
        UnlinkedOwn(m, p, kids[p], i);
      } else {
        UnlinkedOther(m, kids, p, c, n);
      }
    }
    forall d | d in m' && m'[d].parent != null ensures m'[d].parent in m' && d in kids'[m'[d].parent] {
      InWithout(kids[m[d].parent], c, d);
    }
  }

  // ------------------------------------------------------------- linking

  /** The memory after an orphan `c` is put between its new neighbours `b` and `a` under `p`. */
  function Linked(m: Memory, p: XMLNode, b: XMLNode?, a: XMLNode?, c: XMLNode): (r: Memory)
    ensures r.Keys == m.Keys
  {
    map n | n in m :: LinkedNode(m, p, b, a, c, n)
  }

  function LinkedNode(m: Memory, p: XMLNode, b: XMLNode?, a: XMLNode?, c: XMLNode, n: XMLNode): Links
    requires n in m
  {
    var l := m[n];
    Links(if n == c then p else l.parent,
          if n == p && b == null then c else l.first,
          if n == p && a == null then c else l.last,
          if n == c then b else if n == a then c else l.prev,
          if n == c then a else if n == b then c else l.next,
          l.value, l.attributes)
  }

  lemma {:induction false} LinkedOwnLink(m: Memory, p: XMLNode, ks: seq<XMLNode>, i: nat, c: XMLNode, j: nat)
    requires ListOk(m, p, ks) && i <= |ks| && j <= |ks| && c in m && c !in ks
    ensures LinkOk(Linked(m, p, Before(ks, i), NodeAt(ks, i), c), p, Spliced(ks, i, c), j)
  {
    var ks' := Spliced(ks, i, c);
    if j != i {
      var k := if j < i then j else j - 1;
      assert ks'[j] == ks[k];
      assert Before(ks', j) == if k == i then c else Before(ks, k);
      assert NodeAt(ks', j + 1) == if k + 1 == i then c else NodeAt(ks, k + 1);
      assert LinkOk(m, p, ks, k);
      assert ks[k] == Before(ks, i) <==> k + 1 == i;
      assert ks[k] == NodeAt(ks, i) <==> k == i;
      hide Distinct, Before, NodeAt, Spliced;
    } else {
      assert ks'[j] == c && Before(ks', j) == Before(ks, i) && NodeAt(ks', j + 1) == NodeAt(ks, i);
      hide Distinct, Before, NodeAt, Spliced, ListOk;
    }
  }

  lemma {:induction false} LinkedOwn(m: Memory, p: XMLNode, ks: seq<XMLNode>, i: nat, c: XMLNode)
    requires ListOk(m, p, ks) && i <= |ks| && c in m && c !in ks
    ensures ListOk(Linked(m, p, Before(ks, i), NodeAt(ks, i), c), p, Spliced(ks, i, c))
  {
    hide LinkOk;
    var ks' := Spliced(ks, i, c);
    var m' := Linked(m, p, Before(ks, i), NodeAt(ks, i), c);
    forall j | 0 <= j < |ks'| ensures LinkOk(m', p, ks', j) {
      LinkedOwnLink(m, p, ks, i, c, j);
    }
    assert Distinct(ks') by { hide LinkOk, Linked; }
    assert m'[p].first == NodeAt(ks', 0) && m'[p].last == Before(ks', |ks'|) by { hide LinkOk, Distinct; }
    hide Distinct;
  }

  lemma {:induction false} LinkedOther(m: Memory, kids: Children, p: XMLNode, i: nat, c: XMLNode, n: XMLNode)
    requires ForestOk(m, kids) && p in m && i <= |kids[p]| && c in m && m[c].parent == null && n in m && n != p
    ensures ListOk(Linked(m, p, Before(kids[p], i), NodeAt(kids[p], i), c), n, kids[n])
  {
    var ks := kids[n];
    var b, a := Before(kids[p], i), NodeAt(kids[p], i);
    assert ListOk(m, p, kids[p]);
    if b != null { assert LinkOk(m, p, kids[p], i - 1); }
    if a != null { assert LinkOk(m, p, kids[p], i); }
    assert ListOk(m, n, ks);
    forall j | 0 <= j < |ks| ensures LinkOk(Linked(m, p, b, a, c), n, ks, j) {
      assert LinkOk(m, n, ks, j);
    }
  }

  /** Linking an orphan between two neighbouring siblings puts it there in the list, and changes no other list. */
  lemma {:induction false} LinkedForest(m: Memory, kids: Children, p: XMLNode, i: nat, c: XMLNode)
    requires ForestOk(m, kids) && p in m && i <= |kids[p]| && c in m && m[c].parent == null
    ensures ForestOk(Linked(m, p, Before(kids[p], i), NodeAt(kids[p], i), c), Inserted(kids, p, i, c))
  {
    hide ListOk, Spliced, Before, NodeAt;
    var m' := Linked(m, p, Before(kids[p], i), NodeAt(kids[p], i), c);
    var kids' := Inserted(kids, p, i, c);
    forall n | n in m' ensures ListOk(m', n, kids'[n]) {
      OnlyParentHasIt(m, kids, n, c);
      if n == p {
        LinkedOwn(m, p, kids[p], i, c);
      } else {
        LinkedOther(m, kids, p, i, c, n);
      }
    }
    forall d | d in m' && m'[d].parent != null ensures m'[d].parent in m' && d in kids'[m'[d].parent] {
      InSpliced(kids[p], i, c, d);
    }
  }

  // ------------------------------------------------------------- ancestors

  /** Every node ranks below its parent, and no rank exceeds `top`: climbing from child to parent ends. */
  ghost predicate Ranked(m: Memory, rank: Ranks, top: nat) {
    forall n | n in m :: n in rank && rank[n] <= top &&
      (m[n].parent != null ==> m[n].parent in m && m[n].parent in rank && rank[n] < rank[m[n].parent])
  }

  /** `n` is `c` or one of its descendants. */
  ghost predicate Within(m: Memory, rank: Ranks, top: nat, n: XMLNode, c: XMLNode)
    requires Ranked(m, rank, top) && n in m
    decreases top - rank[n]
  {
    n == c || (m[n].parent != null && Within(m, rank, top, m[n].parent, c))
  }

  /** Whether a node is within `c` depends only on the parents climbed through below `c`. */
  lemma {:induction false} SameClimb(m: Memory, rank: Ranks, top: nat, m': Memory, rank': Ranks, top': nat, n: XMLNode, c: XMLNode)
    requires Ranked(m, rank, top) && Ranked(m', rank', top') && n in m && n in m'
    requires forall x | x in m && x in m' && x != c :: m[x].parent == m'[x].parent
    ensures Within(m, rank, top, n, c) == Within(m', rank', top', n, c)
    decreases top - rank[n]
  {
    if n != c && m[n].parent != null {
      SameClimb(m, rank, top, m', rank', top', m[n].parent, c);
    }
  }

  lemma {:induction false} WithinRanksBelow(m: Memory, rank: Ranks, top: nat, n: XMLNode, c: XMLNode)
    requires Ranked(m, rank, top) && n in m && Within(m, rank, top, n, c)
    ensures c in m && rank[n] <= rank[c] && (rank[n] == rank[c] ==> n == c)
    decreases top - rank[n]
  {
    if n != c {
      WithinRanksBelow(m, rank, top, m[n].parent, c);
    }
  }

  /** The ranks that fit after `c` moves below `p`: everything outside the subtree of `c` is lifted above `c`. */
  ghost function Lifted(m: Memory, rank: Ranks, top: nat, c: XMLNode): (r: Ranks)
    requires Ranked(m, rank, top) && c in m
  {
    map n | n in m :: if Within(m, rank, top, n, c) then rank[n] else rank[n] + rank[c] + 1
  }

  /** Moving `c` below a node outside its own subtree leaves a forest without cycles. */
  lemma {:induction false} MoveRanked(m: Memory, rank: Ranks, top: nat, m': Memory, p: XMLNode, c: XMLNode)
    requires Ranked(m, rank, top) && c in m && p in m && !Within(m, rank, top, p, c)
    requires m'.Keys == m.Keys && m'[c].parent == p && forall n | n in m && n != c :: m'[n].parent == m[n].parent
    ensures Ranked(m', Lifted(m, rank, top, c), top + rank[c] + 1)
  {
    var rank' := Lifted(m, rank, top, c);
    forall n | n in m'
      ensures n in rank' && rank'[n] <= top + rank[c] + 1 &&
        (m'[n].parent != null ==> m'[n].parent in m' && rank'[n] < rank'[m'[n].parent])
    {
      if n != c && Within(m, rank, top, n, c) && m[n].parent != null {
        assert Within(m, rank, top, m[n].parent, c);
      }
    }
  }

  /** Moving `c` below a node of its own subtree makes a cycle: no ranks fit any more. */
  lemma {:induction false} MoveIntoItself(m: Memory, rank: Ranks, top: nat, m': Memory, p: XMLNode, c: XMLNode, rank': Ranks, top': nat)
    requires Ranked(m, rank, top) && c in m && p in m && Within(m, rank, top, p, c)
    requires m'.Keys == m.Keys && m'[c].parent == p && forall n | n in m && n != c :: m'[n].parent == m[n].parent
    ensures !Ranked(m', rank', top')
  {
    if Ranked(m', rank', top') {
      ClimbsTo(m, rank, top, m', rank', top', p, c);
    }
  }

  lemma {:induction false} ClimbsTo(m: Memory, rank: Ranks, top: nat, m': Memory, rank': Ranks, top': nat, n: XMLNode, c: XMLNode)
    requires Ranked(m, rank, top) && n in m && Within(m, rank, top, n, c) && Ranked(m', rank', top') && m'.Keys == m.Keys
    requires forall x | x in m && x != c :: m'[x].parent == m[x].parent
    ensures c in m && rank'[n] <= rank'[c]
    decreases top - rank[n]
  {
    if n != c {
      ClimbsTo(m, rank, top, m', rank', top', m[n].parent, c);
    }
  }

  /** The descendants of `n` are the nodes within one of its children. */
  lemma {:induction false} WithinAChild(m: Memory, kids: Children, rank: Ranks, top: nat, x: XMLNode, n: XMLNode)
    requires ForestOk(m, kids) && Ranked(m, rank, top) && x in m && n in m
    ensures Within(m, rank, top, x, n) && x != n <==> exists i :: 0 <= i < |kids[n]| && Within(m, rank, top, x, kids[n][i])
    decreases top - rank[x]
  {
    hide ListOk, LinkOk;
    if m[x].parent != null {
      WithinAChild(m, kids, rank, top, m[x].parent, n);
      if m[x].parent == n {
        var i := PositionOf(m, kids, x);
        assert Within(m, rank, top, x, kids[n][i]);
      }
    }
    forall i | 0 <= i < |kids[n]| && Within(m, rank, top, x, kids[n][i]) ensures Within(m, rank, top, x, n) && x != n {
      OnlyParentHasIt(m, kids, n, kids[n][i]);
      WithinRanksBelow(m, rank, top, x, kids[n][i]);
      if x == kids[n][i] {
        assert Within(m, rank, top, n, n);
      }
    }
    if Within(m, rank, top, x, n) && x != n {
      var y := m[x].parent;
      if y != n {
        var i :| 0 <= i < |kids[n]| && Within(m, rank, top, y, kids[n][i]);
        assert Within(m, rank, top, x, kids[n][i]);
      }
    }
  }

  // ------------------------------------------------------------- counting parentless nodes

  ghost function Orphans(m: Memory, k: Kind): (r: set<XMLNode>)
  {
    set n | n in m && n.kind == k && m[n].parent == null
  }

  ghost function OfKind(nodes: set<XMLNode>, k: Kind): (r: set<XMLNode>)
  {
    set n | n in nodes && n.kind == k
  }
}
