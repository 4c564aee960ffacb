/**
 The document tree as it is kept on the heap: nodes relinked in place, each pool counting its
 live nodes and those never put under a parent.

 The heap is compared with a `Tree`, a value: the links of the live nodes, the lists of
 children they spell out, and the nodes unlinked but neither put back nor freed yet (only
 between two steps of one operation are there any).
 */
module DomSteps {
  import opened DomForest

  datatype Tree = Tree(m: Memory, kids: Children, rank: Ranks, top: nat, pending: set<XMLNode>, pools: Pools)

  /** The counters of one pool: its live nodes, and those that were never put under a parent. */
  datatype Pool = Pool(currentAllocs: int, untracked: int)

  /** The pools of the nodes, by kind, and the pool of the attributes. */
  datatype Pools = Pools(nodes: map<Kind, Pool>, attributes: Pool)

  const NO_LINKS := Links(null, null, null, null, null, "", [])

  /** The snapshot tells what is on the heap. */
  ghost predicate Synced(m: Memory)
    reads m.Keys
  {
    forall n | n in m :: m[n] == Links(n.parent, n.firstChild, n.lastChild, n.prev, n.next, n.value, n.attributes)
  }

  /** Every node was made for the document at the root, and only elements own attributes. */
  ghost predicate RootOk(m: Memory, root: XMLNode) {
    && root in m && m[root].parent == null
    && forall n | n in m :: n.document == root && (n.kind == DocumentKind <==> n == root) && (n.kind != ElementKind ==> m[n].attributes == [])
  }

  /** The links spell out the lists of children, without cycles, and the document is one of the roots. */
  ghost predicate Sound(t: Tree, root: XMLNode) {
    RootOk(t.m, root) && ForestOk(t.m, t.kids) && Ranked(t.m, t.rank, t.top)
  }

  /** All that is true of a document tree. */
  ghost predicate Good(t: Tree, root: XMLNode) {
    Sound(t, root) && Tallied(t.m, t.pending, t.pools)
  }

  ghost function Tally(m: Memory, pending: set<XMLNode>, k: Kind): (r: Pool) {
    Pool(|OfKind(m.Keys, k)|, |Orphans(m, k) - pending|)
  }

  /** The attributes of all live nodes, by owner and position. */
  ghost function Owned(m: Memory): (r: set<(XMLNode, int)>) {
    set n, i: int | n in m && 0 <= i < |m[n].attributes| :: (n, i)
  }

  /**
   Each pool of nodes counts its live nodes and its parentless ones, but for those pending; an
   attribute is counted as tracked as soon as it is made.
   */
  ghost predicate Tallied(m: Memory, pending: set<XMLNode>, pools: Pools) {
    && (forall n | n in pending :: n in m && m[n].parent == null && n.kind != DocumentKind)
    && (forall k | k != DocumentKind :: k in pools.nodes && pools.nodes[k] == Tally(m, pending, k))
    && pools.attributes == Pool(|Owned(m)|, 0)
  }

  /** Relinking leaves the attributes where they are. */
  lemma SameOwned(m: Memory, m': Memory)
    requires forall n | n in m :: n in m' && m'[n].attributes == m[n].attributes
    requires forall n | n in m' && n !in m :: m'[n].attributes == []
    ensures Owned(m') == Owned(m)
  {
  }

  // ------------------------------------------------------------- the steps on trees

  /** A node fresh from its pool: `CreateUnlinkedNode`. */
  ghost function Added(t: Tree, c: XMLNode): Tree
    requires c.kind in t.pools.nodes
  {
    t.(m := t.m[c := NO_LINKS], kids := t.kids[c := []], rank := t.rank[c := 0], pools := Counted(t.pools, c.kind, 1, 1))
  }

  /** `XMLNode::Unlink`. */
  ghost function Cut(t: Tree, p: XMLNode, c: XMLNode): Tree
    requires p in t.m && c in t.m
  {
    t.(m := Unlinked(t.m, p, c), kids := Removed(t.kids, c), pending := t.pending + {c})
  }

  ghost predicate Takeable(t: Tree, c: XMLNode) {
    c in t.m && c.kind in t.pools.nodes && (t.m[c].parent != null ==> t.m[c].parent in t.m)
  }

  ghost predicate Placeable(t: Tree, p: XMLNode, i: nat, c: XMLNode) {
    Ranked(t.m, t.rank, t.top) && c in t.m && p in t.kids && i <= |t.kids[p]|
  }

  /** `InsertChildPreamble`: out of its list, or no longer counted as never put anywhere. */
  ghost function Taken(t: Tree, c: XMLNode): Tree
    requires Takeable(t, c)
  {
    if t.m[c].parent != null then Cut(t, t.m[c].parent, c)
    else t.(kids := Removed(t.kids, c), pending := t.pending + {c}, pools := Counted(t.pools, c.kind, 0, -1))
  }

  /** A pending node linked in at position `i` below `p`. */
  ghost function Put(t: Tree, p: XMLNode, i: nat, c: XMLNode): Tree
    requires Placeable(t, p, i, c)
  {
    t.(m := Linked(t.m, p, Before(t.kids[p], i), NodeAt(t.kids[p], i), c), kids := Inserted(t.kids, p, i, c),
       rank := Lifted(t.m, t.rank, t.top, c), top := t.top + t.rank[c] + 1, pending := t.pending - {c})
  }

  function Counted(pools: Pools, k: Kind, current: int, untracked: int): Pools
    requires k in pools.nodes
  {
    pools.(nodes := pools.nodes[k := Pool(pools.nodes[k].currentAllocs + current, pools.nodes[k].untracked + untracked)])
  }

  /** Nodes deleted though they were never counted as tracked, which a parse that fails leaves behind. */
  type Losses = map<Kind, nat>

  /** The counters as they would be had every node deleted been counted as tracked before. */
  function Unlost(pools: Pools, lost: Losses): (r: Pools)
    ensures r.nodes.Keys == pools.nodes.Keys && r.attributes == pools.attributes
  {
    pools.(nodes := map k | k in pools.nodes :: Pool(pools.nodes[k].currentAllocs, pools.nodes[k].untracked - LossOf(lost, k)))
  }

  function LossOf(lost: Losses, k: Kind): nat {
    if k in lost then lost[k] else 0
  }

  lemma NoneLost(pools: Pools)
    ensures Unlost(pools, map[]) == pools
  {
    assert Unlost(pools, map[]).nodes == pools.nodes;
  }

  lemma LossCounted(pools: Pools, lost: Losses, k: Kind, current: int, untracked: int)
    requires k in pools.nodes
    ensures Unlost(Counted(pools, k, current, untracked), lost) == Counted(Unlost(pools, lost), k, current, untracked)
  {
    hide LossOf;
    var a, b := Unlost(Counted(pools, k, current, untracked), lost).nodes, Counted(Unlost(pools, lost), k, current, untracked).nodes;
    assert a.Keys == b.Keys;
    forall x | x in a ensures a[x] == b[x] {
      if x == k {
        assert a[x] == Pool(pools.nodes[k].currentAllocs + current, pools.nodes[k].untracked + untracked - LossOf(lost, k));
      } else {
        assert a[x] == Pool(pools.nodes[x].currentAllocs, pools.nodes[x].untracked - LossOf(lost, x));
      }
    }
  }

  /** One more node not tracked, seen as if it had been. */
  lemma OneLost(pools: Pools, lost: Losses, k: Kind)
    requires k in pools.nodes
    ensures Unlost(pools, lost[k := LossOf(lost, k) + 1]) == Counted(Unlost(pools, lost), k, 0, -1)
  {
    assert Unlost(pools, lost[k := LossOf(lost, k) + 1]).nodes == Counted(Unlost(pools, lost), k, 0, -1).nodes;
  }

  function NoNodes(): Pools {
    Pools(map[ElementKind := Pool(0, 0), TextKind := Pool(0, 0), CommentKind := Pool(0, 0)], Pool(0, 0))
  }

  ghost function EmptyTree(root: XMLNode): Tree {
    Tree(map[root := NO_LINKS], map[root := []], map[root := 0], 0, {}, NoNodes())
  }

  lemma {:induction false} EmptyDocument(root: XMLNode)
    requires root.kind == DocumentKind && root.document == root
    ensures Good(EmptyTree(root), root)
  {
    var m := map[root := NO_LINKS];
    assert Owned(m) == {};
    forall k | k != DocumentKind ensures OfKind(m.Keys, k) == {} && Orphans(m, k) == {} {
    }
  }

  lemma {:induction false} NewLeaf(m: Memory, kids: Children, c: XMLNode)
    requires ForestOk(m, kids) && c !in m
    ensures ForestOk(m[c := NO_LINKS], kids[c := []])
  {
    var m' := m[c := NO_LINKS];
    forall n | n in m ensures ListOk(m', n, kids[n]) {
      assert ListOk(m, n, kids[n]);
      forall i | 0 <= i < |kids[n]| ensures LinkOk(m', n, kids[n], i) {
        assert LinkOk(m, n, kids[n], i);
      }
    }
    assert ListOk(m', c, []);
    hide ListOk;
  }

  lemma {:induction false} NewRanked(m: Memory, rank: Ranks, top: nat, root: XMLNode, c: XMLNode)
    requires Ranked(m, rank, top) && RootOk(m, root) && c !in m && c.kind != DocumentKind && c.document == root
    ensures Ranked(m[c := NO_LINKS], rank[c := 0], top) && RootOk(m[c := NO_LINKS], root)
  {
  }

  lemma NewSets(m: Memory, pending: set<XMLNode>, c: XMLNode, k: Kind)
    requires pending <= m.Keys && c !in m
    ensures OfKind(m[c := NO_LINKS].Keys, k) == if k == c.kind then OfKind(m.Keys, k) + {c} else OfKind(m.Keys, k)
    ensures Orphans(m[c := NO_LINKS], k) - pending == if k == c.kind then Orphans(m, k) - pending + {c} else Orphans(m, k) - pending
    ensures c !in OfKind(m.Keys, k) && c !in Orphans(m, k) - pending
  {
  }

  lemma OneMore(s: set<XMLNode>, c: XMLNode)
    requires c !in s
    ensures |s + {c}| == |s| + 1
  {
  }

  lemma {:induction false} NewTally(m: Memory, pending: set<XMLNode>, c: XMLNode, k: Kind)
    requires pending <= m.Keys && c !in m
    ensures Tally(m[c := NO_LINKS], pending, k).currentAllocs == Tally(m, pending, k).currentAllocs + if k == c.kind then 1 else 0
    ensures Tally(m[c := NO_LINKS], pending, k).untracked == Tally(m, pending, k).untracked + if k == c.kind then 1 else 0
  {
    hide OfKind, Orphans;
    NewSets(m, pending, c, k);
    OneMore(OfKind(m.Keys, k), c);
    OneMore(Orphans(m, k) - pending, c);
  }

  lemma {:induction false} NewTallied(m: Memory, pending: set<XMLNode>, pools: Pools, c: XMLNode)
    requires Tallied(m, pending, pools) && c !in m && c.kind != DocumentKind
    ensures c.kind in pools.nodes && Tallied(m[c := NO_LINKS], pending, Counted(pools, c.kind, 1, 1))
  {
    hide Tally;
    SameOwned(m, m[c := NO_LINKS]);
    forall k | k != DocumentKind ensures k in pools.nodes && Counted(pools, c.kind, 1, 1).nodes[k] == Tally(m[c := NO_LINKS], pending, k) {
      NewTally(m, pending, c, k);
    }
  }

  lemma {:induction false} AddedGood(t: Tree, root: XMLNode, c: XMLNode)
    requires Good(t, root) && c !in t.m && c.kind != DocumentKind && c.document == root
    ensures c.kind in t.pools.nodes && Good(Added(t, c), root)
  {
    hide ForestOk, Ranked, RootOk, Tallied;
    NewLeaf(t.m, t.kids, c);
    NewRanked(t.m, t.rank, t.top, root, c);
    NewTallied(t.m, t.pending, t.pools, c);
  }

  /** A node unlinked is an orphan not counted: it waits to be put back or freed. */
  lemma {:induction false} CutTallied(m: Memory, pending: set<XMLNode>, pools: Pools, p: XMLNode, c: XMLNode)
    requires Tallied(m, pending, pools) && p in m && c in m && m[c].parent == p && c.kind != DocumentKind
    ensures Tallied(Unlinked(m, p, c), pending + {c}, pools)
  {
    SameOwned(m, Unlinked(m, p, c));
    forall k | k != DocumentKind ensures Tally(Unlinked(m, p, c), pending + {c}, k) == Tally(m, pending, k) {
      CutSets(m, Unlinked(m, p, c), pending, c, k);
      hide OfKind, Orphans;
    }
  }

  lemma CutSets(m: Memory, m': Memory, pending: set<XMLNode>, c: XMLNode, k: Kind)
    requires m'.Keys == m.Keys && c in m && m[c].parent != null && forall n | n in m && n != c :: m'[n].parent == m[n].parent
    ensures Orphans(m', k) - (pending + {c}) == Orphans(m, k) - pending
  {
  }

  lemma {:induction false} CutGood(t: Tree, root: XMLNode, p: XMLNode, c: XMLNode)
    requires Good(t, root) && p in t.m && c in t.m && t.m[c].parent == p
    ensures Good(Cut(t, p, c), root) && Unlinkable(t.m, c)
  {
    hide ForestOk, Tallied;
    assert Ranked(Unlinked(t.m, p, c), t.rank, t.top) && RootOk(Unlinked(t.m, p, c), root) && c.kind != DocumentKind;
    NeighboursLive(t.m, t.kids, c);
    UnlinkedForest(t.m, t.kids, c);
    hide Ranked, RootOk;
    CutTallied(t.m, t.pending, t.pools, p, c);
  }

  lemma {:induction false} TakenTallied(m: Memory, pending: set<XMLNode>, pools: Pools, c: XMLNode)
    requires Tallied(m, pending, pools) && c in m && c !in pending && m[c].parent == null && c.kind != DocumentKind
    ensures c.kind in pools.nodes && Tallied(m, pending + {c}, Counted(pools, c.kind, 0, -1))
  {
    hide Tally;
    forall k | k != DocumentKind ensures k in pools.nodes && Counted(pools, c.kind, 0, -1).nodes[k] == Tally(m, pending + {c}, k) {
      assert pools.nodes[k] == Tally(m, pending, k);
      TakenTally(m, pending, c, k);
    }
  }

  lemma {:induction false} TakenTally(m: Memory, pending: set<XMLNode>, c: XMLNode, k: Kind)
    requires c in m && c !in pending && m[c].parent == null
    ensures Tally(m, pending + {c}, k).currentAllocs == Tally(m, pending, k).currentAllocs
    ensures Tally(m, pending + {c}, k).untracked == Tally(m, pending, k).untracked - if k == c.kind then 1 else 0
  {
    hide OfKind, Orphans;
    TakenSets(m, pending, c, k);
    OneMore(Orphans(m, k) - (pending + {c}), c);
  }

  lemma TakenSets(m: Memory, pending: set<XMLNode>, c: XMLNode, k: Kind)
    requires c in m && c !in pending && m[c].parent == null
    ensures c !in Orphans(m, k) - (pending + {c})
    ensures var o := Orphans(m, k) - (pending + {c});
      Orphans(m, k) - pending == if k == c.kind then o + {c} else o
  {
  }

  lemma {:induction false} OrphanInNoList(m: Memory, kids: Children, c: XMLNode)
    requires ForestOk(m, kids) && c in m && m[c].parent == null
    ensures Removed(kids, c) == kids
  {
    forall n | n in kids ensures Removed(kids, c)[n] == kids[n] {
      OnlyParentHasIt(m, kids, n, c);
    }
  }

  /** After the preamble the node is a root nobody counts, in no list. */
  lemma {:induction false} TakenGood(t: Tree, root: XMLNode, c: XMLNode)
    requires Good(t, root) && c in t.m && c !in t.pending && c != root
    ensures Takeable(t, c)
    ensures var t' := Taken(t, c);
      && Good(t', root) && t'.m.Keys == t.m.Keys && c in t'.pending && t'.kids == Removed(t.kids, c)
      && t'.m[c].parent == null && (forall x | x in t.m && x != c :: t'.m[x].parent == t.m[x].parent)
      && t'.rank == t.rank && t'.top == t.top && t'.pending - {c} == t.pending
  {
    assert c.kind != DocumentKind && c.kind in t.pools.nodes && (t.m[c].parent != null ==> t.m[c].parent in t.m);
    assert t.pending + {c} - {c} == t.pending;
    if t.m[c].parent != null {
      CutGood(t, root, t.m[c].parent, c);
      hide Good, Removed;
    } else {
      MarkedGood(t, root, c);
      hide Good, Removed;
    }
  }

  lemma {:induction false} MarkedGood(t: Tree, root: XMLNode, c: XMLNode)
    requires Good(t, root) && c in t.m && c !in t.pending && c != root && t.m[c].parent == null && Takeable(t, c)
    ensures Good(Taken(t, c), root) && Taken(t, c).kids == t.kids && Taken(t, c).m == t.m
    ensures Taken(t, c).pending == t.pending + {c} && Taken(t, c).rank == t.rank && Taken(t, c).top == t.top
  {
    hide ForestOk, Ranked, Tallied;
    assert c.kind != DocumentKind;
    TakenTallied(t.m, t.pending, t.pools, c);
    OrphanInNoList(t.m, t.kids, c);
    hide RootOk;
  }

  /** Whether `p` is within `c` is not changed by unlinking `c`. */
  lemma {:induction false} TakenWithin(t: Tree, root: XMLNode, p: XMLNode, c: XMLNode)
    requires Good(t, root) && c in t.m && c !in t.pending && c != root && p in t.m
    ensures Takeable(t, c)
    ensures var t' := Taken(t, c);
      && t'.m.Keys == t.m.Keys && Ranked(t'.m, t.rank, t.top)
      && Within(t'.m, t.rank, t.top, p, c) == Within(t.m, t.rank, t.top, p, c)
  {
    hide ForestOk, RootOk, Tallied, Taken, Takeable;
    TakenGood(t, root, c);
    SameClimb(t.m, t.rank, t.top, Taken(t, c).m, t.rank, t.top, p, c);
  }

  lemma {:induction false} PutTallied(m: Memory, pending: set<XMLNode>, pools: Pools, p: XMLNode, b: XMLNode?, a: XMLNode?, c: XMLNode)
    requires Tallied(m, pending, pools) && c in pending
    ensures Tallied(Linked(m, p, b, a, c), pending - {c}, pools)
  {
    SameOwned(m, Linked(m, p, b, a, c));
    forall k | k != DocumentKind ensures Tally(Linked(m, p, b, a, c), pending - {c}, k) == Tally(m, pending, k) {
      PutSets(m, Linked(m, p, b, a, c), pending, c, k);
      hide OfKind, Orphans;
    }
  }

  lemma PutSets(m: Memory, m': Memory, pending: set<XMLNode>, c: XMLNode, k: Kind)
    requires m'.Keys == m.Keys && c in m && c in pending && m'[c].parent != null
    requires forall n | n in m && n != c :: m'[n].parent == m[n].parent
    ensures Orphans(m', k) - (pending - {c}) == Orphans(m, k) - pending
  {
  }

  lemma GoodKeys(t: Tree, root: XMLNode)
    requires Good(t, root)
    ensures t.kids.Keys == t.m.Keys && Ranked(t.m, t.rank, t.top)
  {
    hide Ranked, Tallied, RootOk;
  }

  lemma {:induction false} PutGood(t: Tree, root: XMLNode, p: XMLNode, i: nat, c: XMLNode)
    requires Good(t, root) && c in t.pending && p in t.m && i <= |t.kids[p]| && !Within(t.m, t.rank, t.top, p, c)
    ensures Placeable(t, p, i, c) && Good(Put(t, p, i, c), root)
  {
    hide Ranked, Tallied, ForestOk, RootOk, Within, Lifted, Linked, Inserted, Before, NodeAt;
    GoodKeys(t, root);
    var b, a := Before(t.kids[p], i), NodeAt(t.kids[p], i);
    PendingOrphan(t.m, t.pending, t.pools, c);
    PutTallied(t.m, t.pending, t.pools, p, b, a, c);
    LinkedForest(t.m, t.kids, p, i, c);
    LinkedRanked(t.m, t.rank, t.top, p, b, a, c);
    LinkedRoot(t.m, root, p, b, a, c);
  }

  lemma PendingOrphan(m: Memory, pending: set<XMLNode>, pools: Pools, c: XMLNode)
    requires Tallied(m, pending, pools) && c in pending
    ensures c in m && m[c].parent == null && c.kind != DocumentKind
  {
  }

  lemma LinkedRanked(m: Memory, rank: Ranks, top: nat, p: XMLNode, b: XMLNode?, a: XMLNode?, c: XMLNode)
    requires Ranked(m, rank, top) && c in m && p in m && !Within(m, rank, top, p, c)
    ensures c in rank && Ranked(Linked(m, p, b, a, c), Lifted(m, rank, top, c), top + rank[c] + 1)
  {
    assert c in rank;
    hide Ranked, Within, Lifted;
    MoveRanked(m, rank, top, Linked(m, p, b, a, c), p, c);
  }

  lemma LinkedRoot(m: Memory, root: XMLNode, p: XMLNode, b: XMLNode?, a: XMLNode?, c: XMLNode)
    requires RootOk(m, root) && c in m && c.kind != DocumentKind
    ensures RootOk(Linked(m, p, b, a, c), root)
  {
  }

  /** What `XMLNode::Unlink` relies on. */
  ghost predicate Unlinkable(m: Memory, c: XMLNode) {
    && c in m && (m[c].prev != null ==> m[c].prev in m) && (m[c].next != null ==> m[c].next in m)
    && m[c].prev != c && m[c].next != c && (m[c].prev != null ==> m[c].prev != m[c].next)
  }

  /** The pointers of a linked node lead to live nodes. */
  lemma {:induction false} NeighboursLive(m: Memory, kids: Children, c: XMLNode)
    requires ForestOk(m, kids) && c in m && m[c].parent != null
    ensures m[c].parent in m
    ensures m[c].prev != null ==> m[c].prev in m && m[m[c].prev].next == c
    ensures m[c].next != null ==> m[c].next in m && m[m[c].next].prev == c && m[m[c].next].parent == m[c].parent
    ensures m[c].prev != c && m[c].next != c && (m[c].prev != null ==> m[c].prev != m[c].next)
  {
    var i := PositionOf(m, kids, c);
    var ks := kids[m[c].parent];
    assert ListOk(m, m[c].parent, ks) && LinkOk(m, m[c].parent, ks, i);
    if i > 0 { assert LinkOk(m, m[c].parent, ks, i - 1); }
    if i + 1 < |ks| { assert LinkOk(m, m[c].parent, ks, i + 1); }
  }

  lemma SyncedAdded(m: Memory, c: XMLNode)
    requires Synced(m) && c !in m && Links(c.parent, c.firstChild, c.lastChild, c.prev, c.next, c.value, c.attributes) == NO_LINKS
    ensures Synced(m[c := NO_LINKS])
  {
  }

  ghost predicate SameContents(m: Memory, m': Memory) {
    m'.Keys == m.Keys && forall n | n in m :: m'[n].value == m[n].value && m'[n].attributes == m[n].attributes
  }

  lemma TakenContents(t: Tree, c: XMLNode)
    requires Takeable(t, c)
    ensures SameContents(t.m, Taken(t, c).m)
  {
  }

  lemma PutContents(m: Memory, t: Tree, p: XMLNode, i: nat, c: XMLNode)
    requires SameContents(m, t.m) && Placeable(t, p, i, c)
    ensures SameContents(m, Put(t, p, i, c).m)
  {
    hide Ranked, Lifted, Inserted;
  }

  /** `t'` is `t` with `c` moved to position `i` of the list of `p`; nothing else changes lists. */
  ghost predicate Moved(t: Tree, t': Tree, p: XMLNode, i: nat, c: XMLNode) {
    && SameContents(t.m, t'.m) && t'.pending == t.pending
    && p in Removed(t.kids, c) && i <= |Removed(t.kids, c)[p]|
    && t'.kids == Inserted(Removed(t.kids, c), p, i, c)
  }

  function IndexOf(ks: seq<XMLNode>, x: XMLNode): (i: nat)
    ensures i <= |ks| && (i < |ks| ==> ks[i] == x) && (i == |ks| ==> x !in ks)
  {
    if ks == [] then 0 else if ks[0] == x then 0 else 1 + IndexOf(ks[1..], x)
  }

  /** The position right after `a`; the end when `a` is not there. */
  function PositionAfter(ks: seq<XMLNode>, a: XMLNode): (i: nat)
    ensures i <= |ks|
  {
    if IndexOf(ks, a) == |ks| then |ks| else IndexOf(ks, a) + 1
  }

  /** `a` will still have a next sibling once `c` is out of the way. */
  ghost predicate Gap(t: Tree, a: XMLNode, c: XMLNode) {
    a in t.m && c in t.m && c != a && !(t.m[a].next == c && t.m[c].next == null)
  }

  lemma {:induction false} AfterPosition(t: Tree, root: XMLNode, p: XMLNode, a: XMLNode, c: XMLNode)
    requires Good(t, root) && p in t.m && a in t.m && t.m[a].parent == p && p in t.kids
    requires t.m[a].next != null ==> Gap(t, a, c)
    ensures var ks := Without(t.kids[p], c);
      var i := PositionAfter(ks, a);
      if t.m[a].next == null then i == |ks| else 0 < i < |ks| && ks[i - 1] == a
  {
    hide Ranked, PositionAfter, Without, Distinct;
    var k := PositionOf(t.m, t.kids, a);
    var ks := t.kids[p];
    assert ListOk(t.m, p, ks) && LinkOk(t.m, p, ks, k);
    if k + 1 < |ks| { assert LinkOk(t.m, p, ks, k + 1); }
    PlaceBehind(ks, k, c);
  }

  lemma {:induction false} PlaceBehind(ks: seq<XMLNode>, k: nat, c: XMLNode)
    requires k < |ks| && Distinct(ks)
    ensures var ks' := Without(ks, c); var i := PositionAfter(ks', ks[k]);
      if c == ks[k] then i == |ks'|
      else 0 < i && ks'[i - 1] == ks[k] && (i == |ks'| <==> k == |ks| - 1 || (k == |ks| - 2 && ks[k + 1] == c))
  {
    hide Without;
    InWithout(ks, c, ks[k]);
    if c in ks {
      var j :| 0 <= j < |ks| && ks[j] == c;
      WithoutAt(ks, j);
    }
  }

  /** What linking a node in between two neighbouring siblings relies on. */
  ghost predicate Linkable(m: Memory, p: XMLNode, ks: seq<XMLNode>, c: XMLNode) {
    && p in m && c in m && c != p && m[p].first == NodeAt(ks, 0) && m[p].last == Before(ks, |ks|)
    && forall i | 0 <= i < |ks| :: ks[i] in m && ks[i] != c && m[ks[i]].prev == Before(ks, i) && m[ks[i]].next == NodeAt(ks, i + 1)
  }

  lemma {:induction false} PendingLinkable(t: Tree, root: XMLNode, p: XMLNode, c: XMLNode)
    requires Good(t, root) && c in t.pending && p in t.m && c != p
    ensures p in t.kids && Linkable(t.m, p, t.kids[p], c)
  {
    hide Ranked;
    var ks := t.kids[p];
    assert ListOk(t.m, p, ks);
    forall i | 0 <= i < |ks|
      ensures ks[i] in t.m && ks[i] != c && t.m[ks[i]].prev == Before(ks, i) && t.m[ks[i]].next == NodeAt(ks, i + 1)
    {
      assert LinkOk(t.m, p, ks, i);
    }
  }

  /** A pending node may be linked in anywhere but inside itself. */
  ghost predicate Ready(t: Tree, p: XMLNode, c: XMLNode) {
    Ranked(t.m, t.rank, t.top) && c in t.pending && p in t.m && p in t.kids && c in t.m && !Within(t.m, t.rank, t.top, p, c)
  }

  lemma {:induction false} ReadyGood(t: Tree, root: XMLNode, p: XMLNode, i: nat, c: XMLNode)
    requires Good(t, root) && Ready(t, p, c) && i <= |t.kids[p]|
    ensures LinkableAt(t, p, i, c) && Good(Put(t, p, i, c), root)
    ensures Put(t, p, i, c).pools == t.pools && Put(t, p, i, c).m.Keys == t.m.Keys
  {
    hide Good, Linkable;
    PutGood(t, root, p, i, c);
    PendingLinkable(t, root, p, c);
  }

  /** Below `p` a node can be put that is live and not above `p`; a node of another document is refused anyway. */
  ghost predicate Insertable(t: Tree, root: XMLNode, p: XMLNode, c: XMLNode) {
    c.document == root ==>
      && Ranked(t.m, t.rank, t.top) && c in t.m && c !in t.pending && c != root && p in t.m
      && !Within(t.m, t.rank, t.top, p, c)
  }

  lemma SameDocument(t: Tree, root: XMLNode, p: XMLNode)
    requires Good(t, root) && p in t.m
    ensures p.document == root
  {
    hide ForestOk, Ranked, Tallied;
  }

  /** All that a move needs to know before it starts. */
  lemma {:induction false} MoveReady(t: Tree, root: XMLNode, p: XMLNode, c: XMLNode)
    requires Good(t, root) && p in t.m && c in t.m && c !in t.pending && c != root && !Within(t.m, t.rank, t.top, p, c)
    ensures Takeable(t, c) && Ready(Taken(t, c), p, c) && Taken(t, c).kids == Removed(t.kids, c)
    ensures Taken(t, c).m.Keys == t.m.Keys && Taken(t, c).pending == t.pending + {c}
    ensures SameContents(t.m, Taken(t, c).m)
  {
    TakenContents(t, c);
    TakenGood(t, root, c);
    TakenWithin(t, root, p, c);
  }

  /** A pending node may be linked in at position `i` of the list of `p`. */
  ghost predicate LinkableAt(t: Tree, p: XMLNode, i: nat, c: XMLNode) {
    Placeable(t, p, i, c) && Linkable(t.m, p, t.kids[p], c)
  }

  // ------------------------------------------------------------- the limits of moving

  /** The relinking at the end of `InsertAfterChild`, statement by statement. */
  ghost function RelinkedAfter(m: Memory, p: XMLNode, a: XMLNode, c: XMLNode): Memory
    requires a in m && c in m && m[a].next != null && m[a].next in m
  {
    var m1 := m[c := m[c].(prev := a)];
    var m2 := m1[c := m1[c].(next := m1[a].next)];
    var n: XMLNode := m[a].next;
    var m3 := m2[n := m2[n].(prev := c)];
    var m4 := m3[a := m3[a].(next := c)];
    m4[c := m4[c].(parent := p)]
  }

  /** What `InsertAfterChild` reads as the next sibling of `a` is null exactly when `c` was that sibling and the last. */
  lemma {:induction false} NoGap(t: Tree, root: XMLNode, p: XMLNode, a: XMLNode, c: XMLNode)
    requires Good(t, root) && p in t.m && a in t.m && t.m[a].parent == p && t.m[a].next != null
    requires c in t.m && c !in t.pending && c != root
    ensures Takeable(t, c) && a in Taken(t, c).m
    ensures var next := Taken(t, c).m[a].next;
      && (next == null <==> t.m[a].next == c && t.m[c].next == null)
      && (next != null ==> next in Taken(t, c).m && next != a)
  {
    hide Ranked, Tallied, RootOk, ForestOk, Unlinked;
    TakenGood(t, root, c);
    if t.m[c].parent != null {
      NextAfterUnlink(t.m, t.kids, t.m[c].parent, a, c);
      assert Taken(t, c).m == Unlinked(t.m, t.m[c].parent, c);
    } else {
      NeighboursLive(t.m, t.kids, a);
      assert Taken(t, c).m == t.m;
    }
    hide Good, Sound, Taken;
  }

  lemma {:induction false} NextAfterUnlink(m: Memory, kids: Children, q: XMLNode, a: XMLNode, c: XMLNode)
    requires ForestOk(m, kids) && a in m && m[a].parent != null && m[a].next != null && q in m && c in m && m[c].parent == q
    ensures m[a].next in m
    ensures var next := Unlinked(m, q, c)[a].next;
      next == (if m[a].next == c then m[c].next else m[a].next) && (next != null ==> next in m && next != a)
  {
    hide ForestOk;
    NeighboursLive(m, kids, a);
    NeighboursLive(m, kids, c);
  }

  lemma {:induction false} SelfAfter(m: Memory, p: XMLNode, a: XMLNode, kids: Children)
    requires a in m && m[a].next != null && m[a].next in m && m[a].next != a && p in m
    ensures !ForestOk(RelinkedAfter(m, p, a, a), kids)
  {
    var r := RelinkedAfter(m, p, a, a);
    assert r[a].next == a && r[a].parent == p;
    hide RelinkedAfter;
    if ForestOk(r, kids) {
      NeighboursLive(r, kids, a);
    }
  }

  /**
   `InsertAfterChild` where it does relink: the links stay well formed exactly when a node is
   not put after itself.
   */
  lemma {:induction false} AfterExact(t: Tree, root: XMLNode, p: XMLNode, a: XMLNode, c: XMLNode)
    requires Good(t, root) && p in t.m && a in t.m && t.m[a].parent == p && t.m[a].next != null
    requires c in t.m && c !in t.pending && c != root && !Within(t.m, t.rank, t.top, p, c)
    requires !(t.m[a].next == c && t.m[c].next == null)
    ensures Takeable(t, c) && a in Taken(t, c).m
    ensures var m := Taken(t, c).m; m[a].next != null && m[a].next in m
    ensures (exists kids: Children :: ForestOk(RelinkedAfter(Taken(t, c).m, p, a, c), kids)) <==> c != a
  {
    hide Takeable, RelinkedAfter, ForestOk;
    NoGap(t, root, p, a, c);
    hide Taken;
    if c == a {
      forall kids: Children ensures !ForestOk(RelinkedAfter(Taken(t, c).m, p, a, a), kids) {
        SelfAfter(Taken(t, c).m, p, a, kids);
      }
    } else {
      var kids := AfterFits(t, root, p, a, c);
    }
  }

  lemma {:induction false} AfterFits(t: Tree, root: XMLNode, p: XMLNode, a: XMLNode, c: XMLNode) returns (kids: Children)
    requires Good(t, root) && p in t.m && a in t.m && t.m[a].parent == p && t.m[a].next != null
    requires c in t.m && c !in t.pending && c != root && c != a
    requires !(t.m[a].next == c && t.m[c].next == null)
    requires Takeable(t, c) && a in Taken(t, c).m && Taken(t, c).m[a].next != null && Taken(t, c).m[a].next in Taken(t, c).m
    ensures ForestOk(RelinkedAfter(Taken(t, c).m, p, a, c), kids)
  {
    hide ListOk, LinkOk, Distinct, Ranked, Tallied, RootOk, Within;
    assert p in t.kids by { hide Ranked, Tallied, RootOk; }
    hide Good, Sound, ForestOk;
    AfterPosition(t, root, p, a, c);
    hide Gap, PositionAfter, IndexOf, RelinkedAfter;
    TakenGood(t, root, c);
    var t' := Taken(t, c);
    hide Without, Inserted, Spliced, Taken, Takeable, PositionAfter, Gap, RelinkedAfter;
    var i := PositionAfter(t'.kids[p], a);
    RelinkedIsLinked(t', root, p, a, c, i);
    kids := Inserted(t'.kids, p, i, c);
  }

  lemma {:induction false} RelinkedIsLinked(t: Tree, root: XMLNode, p: XMLNode, a: XMLNode, c: XMLNode, i: nat)
    requires Good(t, root) && c in t.pending && c in t.m && a in t.m && p in t.m && p in t.kids && a != c
    requires 0 < i < |t.kids[p]| && t.kids[p][i - 1] == a && t.m[a].next != null && t.m[a].next in t.m
    ensures ForestOk(RelinkedAfter(t.m, p, a, c), Inserted(t.kids, p, i, c))
  {
    hide Ranked;
    var ks := t.kids[p];
    assert ListOk(t.m, p, ks) && LinkOk(t.m, p, ks, i - 1) && LinkOk(t.m, p, ks, i);
    LinkedForest(t.m, t.kids, p, i, c);
    assert t.m[c].parent == null;
    hide ForestOk, ListOk, LinkOk, Good;
    RelinkedLinks(t.m, p, a, t.m[a].next, c);
  }

  lemma RelinkedLinks(m: Memory, p: XMLNode, a: XMLNode, n: XMLNode, c: XMLNode)
    requires a in m && c in m && m[a].next == n && n in m && a != c && n != c && a != n
    ensures RelinkedAfter(m, p, a, c) == Linked(m, p, a, n, c)
  {
  }

  /** A node may go below `p` without making a cycle exactly when `p` is not in its own subtree. */
  lemma {:induction false} MoveExact(m: Memory, rank: Ranks, top: nat, m': Memory, p: XMLNode, c: XMLNode)
    requires Ranked(m, rank, top) && c in m && p in m
    requires m'.Keys == m.Keys && m'[c].parent == p && forall n | n in m && n != c :: m'[n].parent == m[n].parent
    ensures (exists rank': Ranks, top': nat :: Ranked(m', rank', top')) <==> !Within(m, rank, top, p, c)
  {
    if Within(m, rank, top, p, c) {
      forall rank': Ranks, top': nat ensures !Ranked(m', rank', top') {
        MoveIntoItself(m, rank, top, m', p, c, rank', top');
      }
    } else {
      MoveRanked(m, rank, top, m', p, c);
    }
  }

  // ------------------------------------------------------------- the accounts at the end

  lemma {:induction false} SameSize(a: set<XMLNode>, b: set<XMLNode>)
    requires a <= b && |a| == |b|
    ensures a == b
  {
    if b - a != {} {
      var x :| x in b - a;
      SmallerSize(a, b - {x});
    }
  }

  lemma {:induction false} SmallerSize(a: set<XMLNode>, b: set<XMLNode>)
    requires a <= b
    ensures |a| <= |b|
    decreases b
  {
    if x :| x in b {
      SmallerSize(a - {x}, b - {x});
    }
  }

  ghost predicate InBalance(pools: Pools) {
    && (forall k | k != DocumentKind :: k in pools.nodes && pools.nodes[k].currentAllocs == pools.nodes[k].untracked)
    && pools.attributes.currentAllocs == pools.attributes.untracked
  }

  /** The comparison as it is written out, pool by pool. */
  function Agree(pools: Pools): (r: bool)
    requires ElementKind in pools.nodes && TextKind in pools.nodes && CommentKind in pools.nodes
    ensures r <==> InBalance(pools)
  {
    && pools.nodes[ElementKind].currentAllocs == pools.nodes[ElementKind].untracked
    && pools.attributes.currentAllocs == pools.attributes.untracked
    && pools.nodes[TextKind].currentAllocs == pools.nodes[TextKind].untracked
    && pools.nodes[CommentKind].currentAllocs == pools.nodes[CommentKind].untracked
  }

  lemma {:induction false} KindInBalance(m: Memory, k: Kind)
    ensures |OfKind(m.Keys, k)| == |Orphans(m, k)| <==> forall n | n in m && n.kind == k :: m[n].parent == null
  {
    if |OfKind(m.Keys, k)| == |Orphans(m, k)| {
      SameSize(Orphans(m, k), OfKind(m.Keys, k));
      forall n | n in m && n.kind == k ensures m[n].parent == null {
        assert n in OfKind(m.Keys, k);
      }
    }
    if forall n | n in m && n.kind == k :: m[n].parent == null {
      assert OfKind(m.Keys, k) == Orphans(m, k);
    }
  }

  lemma {:induction false} NoneOwned(m: Memory)
    ensures |Owned(m)| == 0 <==> forall n | n in m :: m[n].attributes == []
  {
    forall n | n in m && m[n].attributes != [] ensures Owned(m) != {} {
      assert (n, 0) in Owned(m);
    }
  }

  /** The node pools agree exactly when no live node has a parent. */
  lemma {:induction false} NodesBalance(t: Tree, root: XMLNode)
    requires Good(t, root) && t.pending == {}
    ensures (forall k | k != DocumentKind :: k in t.pools.nodes && t.pools.nodes[k].currentAllocs == t.pools.nodes[k].untracked)
      <==> forall n | n in t.m :: t.m[n].parent == null
  {
    hide ForestOk, Ranked, OfKind, Orphans;
    forall k | k != DocumentKind
      ensures k in t.pools.nodes
      ensures t.pools.nodes[k].currentAllocs == t.pools.nodes[k].untracked <==> forall n | n in t.m && n.kind == k :: t.m[n].parent == null
    {
      assert t.pools.nodes[k] == Tally(t.m, t.pending, k);
      assert Orphans(t.m, k) - t.pending == Orphans(t.m, k);
      KindInBalance(t.m, k);
    }
    if forall k | k != DocumentKind :: k in t.pools.nodes && t.pools.nodes[k].currentAllocs == t.pools.nodes[k].untracked {
      forall n | n in t.m ensures t.m[n].parent == null {
        assert n.kind == DocumentKind || t.pools.nodes[n.kind].currentAllocs == t.pools.nodes[n.kind].untracked;
      }
    }
  }

  /** The counters of all four pools agree exactly when no live node has a parent or owns an attribute. */
  lemma {:induction false} Balance(t: Tree, root: XMLNode)
    requires Good(t, root) && t.pending == {}
    ensures InBalance(t.pools) <==> forall n | n in t.m :: t.m[n].parent == null && t.m[n].attributes == []
  {
    hide Sound, Owned, Tally;
    NodesBalance(t, root);
    NoneOwned(t.m);
  }
}
