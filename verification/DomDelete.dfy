/**
 Deleting: the children of a node one after the other, each with all below it, then the node.
 */
module DomDelete {
  import opened DomForest
  import opened DomSteps
  import opened DomAttributes

  ghost function PrunedMemory(m: Memory, rank: Ranks, top: nat, n: XMLNode): Memory
    requires Ranked(m, rank, top)
  {
    map x | x in m && !Within(m, rank, top, x, n) :: m[x]
  }

  ghost function PrunedLists(m: Memory, kids: Children, rank: Ranks, top: nat, n: XMLNode): Children
    requires Ranked(m, rank, top)
  {
    map x | x in m && !Within(m, rank, top, x, n) && x in kids :: kids[x]
  }

  /** What is left when the subtree of `n`, a pending root, is gone. */
  ghost function Pruned(t: Tree, n: XMLNode, pools: Pools): Tree
    requires Ranked(t.m, t.rank, t.top)
  {
    t.(m := PrunedMemory(t.m, t.rank, t.top, n),
       kids := PrunedLists(t.m, t.kids, t.rank, t.top, n),
       pending := t.pending - {n}, pools := pools)
  }

  /** `x` is in the subtree of one of the first `j` nodes of `ks`. */
  ghost predicate WithinSome(t: Tree, ks: seq<XMLNode>, j: nat, x: XMLNode)
    requires Ranked(t.m, t.rank, t.top) && x in t.m && j <= |ks|
  {
    exists i :: 0 <= i < j && Within(t.m, t.rank, t.top, x, ks[i])
  }

  ghost function BaredLinks(l: Links, n: XMLNode, ks: seq<XMLNode>, j: nat, x: XMLNode): Links
    requires j <= |ks|
  {
    if x == n then l.(first := NodeAt(ks, j), last := if j < |ks| then l.last else null)
    else if j < |ks| && x == ks[j] then l.(prev := null) else l
  }

  /** What is left when the first `j` children of `n` are deleted with all below them. */
  ghost function Bared(t: Tree, n: XMLNode, ks: seq<XMLNode>, j: nat, pools: Pools): Tree
    requires Ranked(t.m, t.rank, t.top) && j <= |ks|
  {
    t.(m := map x | x in t.m && !WithinSome(t, ks, j, x) :: BaredLinks(t.m[x], n, ks, j, x),
       kids := map x | x in t.m && !WithinSome(t, ks, j, x) && x in t.kids :: if x == n then ks[j..] else t.kids[x],
       pools := pools)
  }

  /** A childless pending node goes back to its pool. */
  ghost function Freed(t: Tree, n: XMLNode): Tree
    requires n.kind in t.pools.nodes
  {
    t.(m := t.m - {n}, kids := t.kids - {n}, pending := t.pending - {n}, pools := Counted(t.pools, n.kind, -1, 0))
  }

  /** Once pruned, it does not matter that the attributes of the node went first. */
  lemma {:induction false} StrippedPruned(t: Tree, root: XMLNode, n: XMLNode)
    requires Good(t, root) && n in t.m
    ensures n in t.kids && Ranked(t.m, t.rank, t.top) && Ranked(WithAttributes(t, n, []).m, t.rank, t.top)
    ensures WithAttributes(t, n, []).kids == t.kids && WithAttributes(t, n, []).rank == t.rank
    ensures forall pools :: Pruned(WithAttributes(t, n, []), n, pools) == Pruned(t, n, pools)
  {
    hide Tallied, RootOk;
    var t' := WithAttributes(t, n, []);
    WithRest(t, n, []);
    assert n in t.kids by { hide Ranked, Tallied, RootOk; }
    hide ForestOk, WithAttributes;
    assert Ranked(t'.m, t.rank, t.top);
    forall x | x in t.m ensures Within(t'.m, t.rank, t.top, x, n) == Within(t.m, t.rank, t.top, x, n) {
      SameClimb(t.m, t.rank, t.top, t'.m, t.rank, t.top, x, n);
    }
    assert Within(t.m, t.rank, t.top, n, n);
    hide Ranked, Within;
    assert PrunedMemory(t'.m, t.rank, t.top, n) == PrunedMemory(t.m, t.rank, t.top, n);
    assert PrunedLists(t'.m, t.kids, t.rank, t.top, n) == PrunedLists(t.m, t.kids, t.rank, t.top, n);
  }

  lemma {:induction false} BaredNothing(t: Tree, root: XMLNode, n: XMLNode)
    requires Good(t, root) && n in t.m && n in t.kids
    ensures Ranked(t.m, t.rank, t.top) && Bared(t, n, t.kids[n], 0, t.pools) == t
  {
    hide Ranked, Within, Tallied, RootOk;
    var ks := t.kids[n];
    var b := Bared(t, n, ks, 0, t.pools);
    assert ListOk(t.m, n, ks);
    if ks != [] { assert LinkOk(t.m, n, ks, 0); }
    forall x | x in t.m ensures x in b.m && b.m[x] == t.m[x] && x in b.kids && b.kids[x] == t.kids[x] {
      assert !WithinSome(t, ks, 0, x);
      assert ks[0..] == ks;
    }
    assert b.m == t.m && b.kids == t.kids;
  }

  lemma {:induction false} FreedForest(m: Memory, kids: Children, n: XMLNode)
    requires ForestOk(m, kids) && n in m && kids[n] == [] && m[n].parent == null
    ensures ForestOk(m - {n}, kids - {n})
  {
    forall x | x in m - {n} ensures ListOk(m - {n}, x, kids[x]) {
      OnlyParentHasIt(m, kids, x, n);
      assert ListOk(m, x, kids[x]);
      forall i | 0 <= i < |kids[x]| ensures LinkOk(m - {n}, x, kids[x], i) {
        assert LinkOk(m, x, kids[x], i);
      }
    }
    forall c | c in m - {n} && m[c].parent != null ensures m[c].parent in m - {n} && c in kids[m[c].parent] {
      assert m[c].parent != n by { OnlyParentHasIt(m, kids, n, c); }
    }
    hide ListOk;
  }

  lemma {:induction false} FreedTallied(m: Memory, pending: set<XMLNode>, pools: Pools, n: XMLNode)
    requires Tallied(m, pending, pools) && n in pending && m[n].attributes == []
    ensures n.kind in pools.nodes && Tallied(m - {n}, pending - {n}, Counted(pools, n.kind, -1, 0))
  {
    hide Tally;
    SameOwned(m - {n}, m);
    forall k | k != DocumentKind ensures k in pools.nodes && Counted(pools, n.kind, -1, 0).nodes[k] == Tally(m - {n}, pending - {n}, k) {
      assert pools.nodes[k] == Tally(m, pending, k);
      FreedTally(m, pending, n, k);
    }
  }

  lemma FreedSets(m: Memory, pending: set<XMLNode>, n: XMLNode, k: Kind)
    requires n in pending && n in m
    ensures n !in OfKind((m - {n}).Keys, k)
    ensures OfKind(m.Keys, k) == if k == n.kind then OfKind((m - {n}).Keys, k) + {n} else OfKind((m - {n}).Keys, k)
    ensures Orphans(m - {n}, k) - (pending - {n}) == Orphans(m, k) - pending
  {
  }

  lemma {:induction false} FreedTally(m: Memory, pending: set<XMLNode>, n: XMLNode, k: Kind)
    requires n in pending && n in m
    ensures Tally(m - {n}, pending - {n}, k).currentAllocs == Tally(m, pending, k).currentAllocs - if k == n.kind then 1 else 0
    ensures Tally(m - {n}, pending - {n}, k).untracked == Tally(m, pending, k).untracked
  {
    hide OfKind, Orphans;
    FreedSets(m, pending, n, k);
    OneMore(OfKind((m - {n}).Keys, k), n);
  }

  lemma {:induction false} FreedRanked(m: Memory, kids: Children, rank: Ranks, top: nat, root: XMLNode, n: XMLNode)
    requires Ranked(m, rank, top) && RootOk(m, root) && ForestOk(m, kids) && n in m && kids[n] == [] && n.kind != DocumentKind
    ensures Ranked(m - {n}, rank, top) && RootOk(m - {n}, root)
  {
    hide ListOk;
    assert forall x | x in m && m[x].parent != null :: m[x].parent != n;
  }

  lemma {:induction false} FreedGood(t: Tree, root: XMLNode, n: XMLNode)
    requires Good(t, root) && n in t.pending && n in t.kids && t.kids[n] == [] && n in t.m && t.m[n].attributes == []
    ensures n.kind in t.pools.nodes && Good(Freed(t, n), root)
  {
    hide ForestOk, Ranked, RootOk;
    FreedTallied(t.m, t.pending, t.pools, n);
    assert t.m[n].parent == null && n.kind != DocumentKind;
    hide Tallied;
    FreedForest(t.m, t.kids, n);
    FreedRanked(t.m, t.kids, t.rank, t.top, root, n);
  }

  /** The subtrees of the children make up the subtree. */
  lemma {:induction false} WithinSomeChild(t: Tree, root: XMLNode, n: XMLNode, x: XMLNode)
    requires Good(t, root) && n in t.m && n in t.kids && x in t.m
    ensures Ranked(t.m, t.rank, t.top)
    ensures WithinSome(t, t.kids[n], |t.kids[n]|, x) <==> x != n && Within(t.m, t.rank, t.top, x, n)
  {
    hide ForestOk, Within, Tallied;
    WithinAChild(t.m, t.kids, t.rank, t.top, x, n);
  }

  /** Deleting the children and then the node is pruning. */
  lemma {:induction false} BaredAll(t: Tree, root: XMLNode, n: XMLNode, pools: Pools)
    requires Good(t, root) && n in t.m && n in t.kids && n.kind in pools.nodes
    ensures Ranked(t.m, t.rank, t.top)
    ensures Freed(Bared(t, n, t.kids[n], |t.kids[n]|, pools), n) == Pruned(t, n, Counted(pools, n.kind, -1, 0))
  {
    hide WithinSome, Ranked, Bared, PrunedMemory, PrunedLists, Counted;
    var ks := t.kids[n];
    var b := Bared(t, n, ks, |ks|, pools);
    forall x | x in t.m
      ensures x != n && !WithinSome(t, ks, |ks|, x) <==> !Within(t.m, t.rank, t.top, x, n)
    {
      WithinSomeChild(t, root, n, x);
    }
    assert t.kids.Keys == t.m.Keys;
    hide Good, Within;
    BaredAllMemory(t, n, ks, pools);
    BaredAllLists(t, n, ks, pools);
    BaredRest(t, n, ks, |ks|, pools);
    BaredAllRecord(t, b, n, pools);
  }

  lemma BaredAllMemory(t: Tree, n: XMLNode, ks: seq<XMLNode>, pools: Pools)
    requires Ranked(t.m, t.rank, t.top)
    requires forall x | x in t.m :: x != n && !WithinSome(t, ks, |ks|, x) <==> !Within(t.m, t.rank, t.top, x, n)
    ensures Bared(t, n, ks, |ks|, pools).m - {n} == PrunedMemory(t.m, t.rank, t.top, n)
  {
    hide Ranked, Within, WithinSome;
  }

  lemma BaredAllLists(t: Tree, n: XMLNode, ks: seq<XMLNode>, pools: Pools)
    requires Ranked(t.m, t.rank, t.top)
    requires forall x | x in t.m :: x != n && !WithinSome(t, ks, |ks|, x) <==> !Within(t.m, t.rank, t.top, x, n)
    ensures Bared(t, n, ks, |ks|, pools).kids - {n} == PrunedLists(t.m, t.kids, t.rank, t.top, n)
  {
    hide Ranked, Within, WithinSome, BaredLinks;
  }

  lemma BaredAllRecord(t: Tree, b: Tree, n: XMLNode, pools: Pools)
    requires Ranked(t.m, t.rank, t.top) && n.kind in pools.nodes && b.pools == pools
    requires b.m - {n} == PrunedMemory(t.m, t.rank, t.top, n) && b.kids - {n} == PrunedLists(t.m, t.kids, t.rank, t.top, n)
    requires b.rank == t.rank && b.top == t.top && b.pending == t.pending
    ensures Freed(b, n) == Pruned(t, n, Counted(pools, n.kind, -1, 0))
  {
    hide Ranked, PrunedMemory, PrunedLists, Counted;
  }

  lemma {:induction false} BaredStepLinks(m: Memory, b: Memory, n: XMLNode, ks: seq<XMLNode>, j: nat, x: XMLNode)
    requires ListOk(m, n, ks) && j < |ks| && x != ks[j] && n != ks[j] && n !in ks && ks[j] in m && n in b && ks[j] in b
    requires x in m && x in b && b[x] == BaredLinks(m[x], n, ks, j, x) && b[ks[j]] == BaredLinks(m[ks[j]], n, ks, j, ks[j])
    ensures UnlinkedNode(b, n, ks[j], x) == BaredLinks(m[x], n, ks, j + 1, x)
  {
    assert LinkOk(m, n, ks, j);
    assert ks[|ks| - 1] == ks[j] <==> j == |ks| - 1;
    hide Distinct;
  }

  lemma {:induction false} CutClimb(m: Memory, b: Memory, rank: Ranks, top: nat, n: XMLNode, c: XMLNode, x: XMLNode)
    requires Ranked(m, rank, top) && Ranked(b, rank, top) && n in b && c in b && x in b
    requires forall y | y in b :: y in m && b[y].parent == m[y].parent
    ensures Ranked(Unlinked(b, n, c), rank, top) && Within(Unlinked(b, n, c), rank, top, x, c) == Within(m, rank, top, x, c)
  {
    hide Within;
    SameClimb(Unlinked(b, n, c), rank, top, m, rank, top, x, c);
  }

  lemma BaredParents(t: Tree, n: XMLNode, ks: seq<XMLNode>, j: nat, pools: Pools)
    requires Ranked(t.m, t.rank, t.top) && j <= |ks|
    ensures var b := Bared(t, n, ks, j, pools).m;
      forall y | y in b :: y in t.m && !WithinSome(t, ks, j, y) && b[y] == BaredLinks(t.m[y], n, ks, j, y) && b[y].parent == t.m[y].parent
    ensures var b := Bared(t, n, ks, j, pools).m;
      forall y | y in t.m && !WithinSome(t, ks, j, y) :: y in b
  {
    hide Ranked, WithinSome;
  }

  lemma WithinOneMore(t: Tree, ks: seq<XMLNode>, j: nat, x: XMLNode)
    requires Ranked(t.m, t.rank, t.top) && x in t.m && j < |ks|
    ensures WithinSome(t, ks, j + 1, x) <==> WithinSome(t, ks, j, x) || Within(t.m, t.rank, t.top, x, ks[j])
  {
    hide Ranked, Within;
  }

  /** Deleting the next child, seen from one node. */
  lemma {:induction false} BaredStepAt(m: Memory, b: Memory, b': Memory, rank: Ranks, top: nat, n: XMLNode, ks: seq<XMLNode>, j: nat, x: XMLNode)
    requires Ranked(m, rank, top) && Ranked(b, rank, top) && ListOk(m, n, ks) && n !in ks && j < |ks|
    requires n in b && ks[j] in b && b[ks[j]].parent == n && x in b
    requires forall y | y in b :: y in m && b[y].parent == m[y].parent && b[y] == BaredLinks(m[y], n, ks, j, y)
    requires x in b' <==> !Within(m, rank, top, x, ks[j])
    requires x in b' ==> b'[x] == BaredLinks(m[x], n, ks, j + 1, x)
    ensures Ranked(Unlinked(b, n, ks[j]), rank, top)
    ensures x in b' <==> !Within(Unlinked(b, n, ks[j]), rank, top, x, ks[j])
    ensures x in b' ==> b'[x] == UnlinkedNode(b, n, ks[j], x)
  {
    CutClimb(m, b, rank, top, n, ks[j], x);
    if x in b' {
      assert x != ks[j];
      hide Ranked, Within, ListOk;
      BaredStepLinks(m, b, n, ks, j, x);
    }
  }

  /** Deleting the next child: the links of the nodes left. */
  lemma {:induction false} BaredStepAll(m: Memory, b: Memory, b': Memory, rank: Ranks, top: nat, n: XMLNode, ks: seq<XMLNode>, j: nat)
    requires Ranked(m, rank, top) && Ranked(b, rank, top) && ListOk(m, n, ks) && n !in ks && j < |ks|
    requires n in b && ks[j] in b && b[ks[j]].parent == n
    requires forall y | y in b :: y in m && b[y].parent == m[y].parent && b[y] == BaredLinks(m[y], n, ks, j, y)
    requires forall y | y in b :: y in b' <==> !Within(m, rank, top, y, ks[j])
    requires forall y | y in b' :: y in b && b'[y] == BaredLinks(m[y], n, ks, j + 1, y)
    ensures Ranked(Unlinked(b, n, ks[j]), rank, top) && PrunedMemory(Unlinked(b, n, ks[j]), rank, top, ks[j]) == b'
  {
    hide Ranked, Within, ListOk, BaredLinks, UnlinkedNode;
    forall x | x in b
      ensures Ranked(Unlinked(b, n, ks[j]), rank, top)
      ensures x in b' <==> !Within(Unlinked(b, n, ks[j]), rank, top, x, ks[j])
      ensures x in b' ==> b'[x] == UnlinkedNode(b, n, ks[j], x)
    {
      BaredStepAt(m, b, b', rank, top, n, ks, j, x);
    }
  }

  lemma {:induction false} BaredStepMemory(t: Tree, root: XMLNode, n: XMLNode, ks: seq<XMLNode>, j: nat, pools: Pools, pools': Pools)
    requires Good(t, root) && n in t.m && n in t.kids && ks == t.kids[n] && j < |ks|
    requires Ranked(t.m, t.rank, t.top) && Good(Bared(t, n, ks, j, pools), root)
    requires var b := Bared(t, n, ks, j, pools).m; n in b && ks[j] in b && b[ks[j]].parent == n
    ensures var b := Bared(t, n, ks, j, pools).m;
      Ranked(Unlinked(b, n, ks[j]), t.rank, t.top) &&
      PrunedMemory(Unlinked(b, n, ks[j]), t.rank, t.top, ks[j]) == Bared(t, n, ks, j + 1, pools').m
  {
    hide Ranked, Within, WithinSome, BaredLinks, ListOk;
    var b, b' := Bared(t, n, ks, j, pools).m, Bared(t, n, ks, j + 1, pools').m;
    assert ListOk(t.m, n, ks) && Ranked(b, t.rank, t.top);
    NotOwnChild(t, root, n, ks);
    BaredParents(t, n, ks, j, pools);
    BaredParents(t, n, ks, j + 1, pools');
    hide Good, Bared;
    forall y | y in t.m ensures y in b' <==> y in b && !Within(t.m, t.rank, t.top, y, ks[j]) {
      WithinOneMore(t, ks, j, y);
    }
    BaredStepAll(t.m, b, b', t.rank, t.top, n, ks, j);
  }

  lemma {:induction false} NotOwnChild(t: Tree, root: XMLNode, n: XMLNode, ks: seq<XMLNode>)
    requires Good(t, root) && n in t.m && n in t.kids && ks == t.kids[n]
    ensures n !in ks
  {
    OnlyParentHasIt(t.m, t.kids, n, n);
  }

  lemma BaredLists(t: Tree, n: XMLNode, ks: seq<XMLNode>, j: nat, pools: Pools)
    requires Ranked(t.m, t.rank, t.top) && j <= |ks| && t.kids.Keys == t.m.Keys
    ensures var b := Bared(t, n, ks, j, pools);
      b.kids.Keys == b.m.Keys && forall y | y in b.kids :: y in t.kids && b.kids[y] == if y == n then ks[j..] else t.kids[y]
  {
    hide Ranked, WithinSome, BaredLinks;
  }

  lemma {:induction false} BaredStepLists(t: Tree, root: XMLNode, n: XMLNode, ks: seq<XMLNode>, j: nat, pools: Pools, pools': Pools)
    requires Good(t, root) && n in t.m && n in t.kids && ks == t.kids[n] && j < |ks|
    requires Ranked(t.m, t.rank, t.top) && Good(Bared(t, n, ks, j, pools), root)
    requires var b := Bared(t, n, ks, j, pools).m; n in b && ks[j] in b && b[ks[j]].parent == n
    ensures var b := Bared(t, n, ks, j, pools);
      Ranked(Unlinked(b.m, n, ks[j]), t.rank, t.top) &&
      PrunedLists(Unlinked(b.m, n, ks[j]), Removed(b.kids, ks[j]), t.rank, t.top, ks[j]) == Bared(t, n, ks, j + 1, pools').kids
  {
    hide Ranked, Within, WithinSome, BaredLinks, ListOk, Bared, Unlinked;
    var b, b' := Bared(t, n, ks, j, pools), Bared(t, n, ks, j + 1, pools');
    assert t.kids.Keys == t.m.Keys && ForestOk(b.m, b.kids);
    hide Good;
    BaredLists(t, n, ks, j, pools);
    BaredLists(t, n, ks, j + 1, pools');
    BaredWithout(b.m, b.kids, n, ks, j);
    hide ForestOk;
    BaredStepMemory(t, root, n, ks, j, pools, pools');
    PrunedKeys(Unlinked(b.m, n, ks[j]), Removed(b.kids, ks[j]), t.rank, t.top, ks[j]);
    BaredListsMeet(t, PrunedLists(Unlinked(b.m, n, ks[j]), Removed(b.kids, ks[j]), t.rank, t.top, ks[j]), b.kids, b'.kids, n, ks, j);
  }

  lemma BaredListsMeet(t: Tree, r: Children, b: Children, b': Children, n: XMLNode, ks: seq<XMLNode>, j: nat)
    requires j < |ks| && r.Keys == b'.Keys
    requires forall y | y in r :: y in b && r[y] == Without(b[y], ks[j])
    requires forall y | y in b :: Without(b[y], ks[j]) == if y == n then ks[j + 1..] else b[y]
    requires forall y | y in b :: y in t.kids && b[y] == if y == n then ks[j..] else t.kids[y]
    requires forall y | y in b' :: y in t.kids && b'[y] == if y == n then ks[j + 1..] else t.kids[y]
    ensures r == b'
  {
    hide Without;
  }

  lemma {:induction false} BaredWithout(m: Memory, kids: Children, n: XMLNode, ks: seq<XMLNode>, j: nat)
    requires ForestOk(m, kids) && n in m && j < |ks| && kids[n] == ks[j..]
    ensures forall y | y in kids :: Without(kids[y], ks[j]) == if y == n then ks[j + 1..] else kids[y]
  {
    assert ks[j..][0] == ks[j];
    assert ListOk(m, n, kids[n]);
    DistinctList(m, n, kids[n]);
    WithoutAt(ks[j..], 0);
    assert ks[j..][..0] + ks[j..][1..] == ks[j + 1..];
    forall y | y in kids && y != n ensures Without(kids[y], ks[j]) == kids[y] {
      OnlyParentHasIt(m, kids, y, ks[j]);
      OnlyParentHasIt(m, kids, n, ks[j]);
    }
  }

  lemma DistinctList(m: Memory, n: XMLNode, ks: seq<XMLNode>)
    requires ListOk(m, n, ks)
    ensures Distinct(ks)
  {
  }

  lemma PrunedKeys(m: Memory, kids: Children, rank: Ranks, top: nat, n: XMLNode)
    requires Ranked(m, rank, top) && kids.Keys == m.Keys
    ensures PrunedLists(m, kids, rank, top, n).Keys == PrunedMemory(m, rank, top, n).Keys
    ensures forall y | y in PrunedLists(m, kids, rank, top, n) :: y in kids && PrunedLists(m, kids, rank, top, n)[y] == kids[y]
  {
    hide Ranked, Within;
  }

  /** Deleting the next child of `n`. */
  lemma {:induction false} BaredStep(t: Tree, root: XMLNode, n: XMLNode, ks: seq<XMLNode>, j: nat, pools: Pools, pools': Pools)
    requires Good(t, root) && n in t.m && n in t.kids && ks == t.kids[n] && j < |ks|
    requires Ranked(t.m, t.rank, t.top) && Good(Bared(t, n, ks, j, pools), root)
    requires var b := Bared(t, n, ks, j, pools).m; n in b && ks[j] in b && b[ks[j]].parent == n
    ensures var b := Cut(Bared(t, n, ks, j, pools), n, ks[j]);
      Ranked(b.m, b.rank, b.top) && Pruned(b, ks[j], pools') == Bared(t, n, ks, j + 1, pools')
  {
    hide Good, Bared, Ranked, PrunedLists, PrunedMemory, Unlinked, Removed, Within, WithinSome, Sound, Tallied;
    var b, b' := Bared(t, n, ks, j, pools), Bared(t, n, ks, j + 1, pools');
    BaredRest(t, n, ks, j, pools);
    BaredRest(t, n, ks, j + 1, pools');
    NotPending(t, root, b, n, ks[j]);
    BaredStepMemory(t, root, n, ks, j, pools, pools');
    BaredStepLists(t, root, n, ks, j, pools, pools');
    BaredStepRecord(b, b', n, ks[j], pools');
  }

  lemma BaredStepRecord(b: Tree, b': Tree, n: XMLNode, c: XMLNode, pools': Pools)
    requires n in b.m && c in b.m && c !in b.pending && Ranked(Unlinked(b.m, n, c), b.rank, b.top)
    requires b'.m == PrunedMemory(Unlinked(b.m, n, c), b.rank, b.top, c)
    requires b'.kids == PrunedLists(Unlinked(b.m, n, c), Removed(b.kids, c), b.rank, b.top, c)
    requires b'.rank == b.rank && b'.top == b.top && b'.pending == b.pending && b'.pools == pools'
    ensures Ranked(Cut(b, n, c).m, b.rank, b.top) && Pruned(Cut(b, n, c), c, pools') == b'
  {
    hide Ranked, PrunedLists, PrunedMemory, Unlinked, Removed;
    assert b.pending + {c} - {c} == b.pending;
  }

  lemma BaredRest(t: Tree, n: XMLNode, ks: seq<XMLNode>, j: nat, pools: Pools)
    requires Ranked(t.m, t.rank, t.top) && j <= |ks|
    ensures var b := Bared(t, n, ks, j, pools); b.rank == t.rank && b.top == t.top && b.pending == t.pending && b.pools == pools
  {
  }

  lemma NotPending(t: Tree, root: XMLNode, b: Tree, n: XMLNode, c: XMLNode)
    requires Good(b, root) && c in b.m && b.m[c].parent == n && b.pending == t.pending
    ensures c !in t.pending
  {
  }

  lemma {:induction false} NeverWithinSome(t: Tree, root: XMLNode, n: XMLNode, ks: seq<XMLNode>, j: nat)
    requires Good(t, root) && n in t.m && n in t.kids && ks == t.kids[n] && j <= |ks| && Ranked(t.m, t.rank, t.top)
    ensures !WithinSome(t, ks, j, n)
  {
    hide Good;
    WithinSomeChild(t, root, n, n);
  }

  /** `n` is there, and its first child is number `j`. */
  ghost predicate AtChild(b: Tree, n: XMLNode, ks: seq<XMLNode>, j: nat)
    requires j <= |ks|
  {
    && n in b.m && b.m[n].first == NodeAt(ks, j) && (j == |ks| ==> b.m[n].last == null)
    && (j < |ks| ==> ks[j] in b.m && b.m[ks[j]].parent == n && n in b.rank && ks[j] in b.rank && b.rank[ks[j]] < b.rank[n])
  }

  /** In the middle of deleting the children: `n` is still there, and its first child is the next to go. */
  lemma {:induction false} BaredNext(t: Tree, root: XMLNode, n: XMLNode, ks: seq<XMLNode>, j: nat, pools: Pools)
    requires Good(t, root) && n in t.m && n in t.kids && ks == t.kids[n] && j <= |ks|
    requires Ranked(t.m, t.rank, t.top) && Good(Bared(t, n, ks, j, pools), root)
    ensures Bared(t, n, ks, j, pools).m.Keys <= t.m.Keys && Bared(t, n, ks, j, pools).rank == t.rank && AtChild(Bared(t, n, ks, j, pools), n, ks, j)
  {
    hide Bared, WithinSome, Within, Tallied, RootOk;
    var b := Bared(t, n, ks, j, pools);
    NeverWithinSome(t, root, n, ks, j);
    BaredParents(t, n, ks, j, pools);
    BaredRest(t, n, ks, j, pools);
    assert t.kids.Keys == t.m.Keys;
    BaredLists(t, n, ks, j, pools);
    assert ListOk(b.m, n, b.kids[n]);
    if j < |ks| {
      assert ks[j..][0] == ks[j];
      assert LinkOk(b.m, n, ks[j..], 0);
    }
  }

  /** The first `j` of the children `ks` of `n` are gone from `t`, which leaves `b`. */
  ghost predicate Baring(t: Tree, root: XMLNode, n: XMLNode, ks: seq<XMLNode>, j: nat, b: Tree) {
    && Good(t, root) && Good(b, root) && n in t.m && n in t.kids && ks == t.kids[n] && j <= |ks|
    && Ranked(t.m, t.rank, t.top) && b == Bared(t, n, ks, j, b.pools) && AtChild(b, n, ks, j)
  }

  lemma BaringStart(t: Tree, root: XMLNode, n: XMLNode)
    requires Good(t, root) && n in t.m
    ensures n in t.kids && Ranked(t.m, t.rank, t.top) && Baring(t, root, n, t.kids[n], 0, t)
  {
    hide Good, Bared, Ranked;
    GoodKeys(t, root);
    BaredNothing(t, root, n);
    BaredNext(t, root, n, t.kids[n], 0, t.pools);
  }

  lemma BaringChild(t: Tree, root: XMLNode, n: XMLNode, ks: seq<XMLNode>, j: nat, b: Tree)
    requires Baring(t, root, n, ks, j, b) && n in b.m && b.m[n].first != null
    ensures j < |ks| && b.m[n].first == ks[j] && ks[j] in b.m && b.m[ks[j]].parent == n
    ensures n in b.rank && ks[j] in b.rank && b.rank[ks[j]] < b.rank[n]
  {
    hide Good, Bared, Ranked;
  }

  lemma BaringStep(t: Tree, root: XMLNode, n: XMLNode, ks: seq<XMLNode>, j: nat, b: Tree, b': Tree)
    requires Baring(t, root, n, ks, j, b) && n in b.m && b.m[n].first != null && Good(b', root)
    requires j < |ks| && ks[j] in b.m && b.m[ks[j]].parent == n
    requires var c := Cut(b, n, ks[j]); Ranked(c.m, c.rank, c.top) && b' == Pruned(c, ks[j], b'.pools)
    ensures Baring(t, root, n, ks, j + 1, b') && n in b'.m && b'.rank == t.rank && b'.m.Keys <= t.m.Keys
  {
    hide Good, Bared, Ranked, Cut, Pruned;
    BaredStep(t, root, n, ks, j, b.pools, b'.pools);
    BaredNext(t, root, n, ks, j + 1, b'.pools);
  }

  lemma BaringEnd(t: Tree, root: XMLNode, n: XMLNode, ks: seq<XMLNode>, j: nat, b: Tree)
    requires Baring(t, root, n, ks, j, b) && n in b.m && b.m[n].first == null
    ensures j == |ks| && b == Bared(t, n, ks, |ks|, b.pools) && b.m[n].last == null
  {
    hide Good, Bared, Ranked;
  }

  /** Once the last child is gone the node can be freed. */
  lemma {:induction false} BaredEnd(t: Tree, root: XMLNode, n: XMLNode, ks: seq<XMLNode>, pools: Pools)
    requires Good(t, root) && n in t.m && n in t.kids && ks == t.kids[n] && Ranked(t.m, t.rank, t.top)
    ensures var b := Bared(t, n, ks, |ks|, pools);
      n in b.kids && b.kids[n] == [] && b.pending == t.pending && b.rank == t.rank && b.top == t.top &&
      n in b.m && b.m[n].attributes == t.m[n].attributes
  {
    hide Bared, WithinSome, Within;
    NeverWithinSome(t, root, n, ks, |ks|);
    BaredParents(t, n, ks, |ks|, pools);
    BaredRest(t, n, ks, |ks|, pools);
    assert t.kids.Keys == t.m.Keys;
    BaredLists(t, n, ks, |ks|, pools);
    hide Good;
  }

  /** The document without children, and no other node. */
  ghost function Alone(t: Tree, root: XMLNode): Tree {
    if root in t.m then t.(m := map[root := t.m[root]], kids := map[root := []], pending := {}, pools := NoNodes()) else t
  }

  lemma {:induction false} AloneGood(t: Tree, root: XMLNode)
    requires Good(t, root) && root in t.kids && t.kids[root] == []
    ensures root in t.m && Good(Alone(t, root), root)
  {
    var m := map[root := t.m[root]];
    assert ListOk(t.m, root, []) by { hide Ranked, Tallied; }
    assert t.m[root].attributes == [] && t.m[root].parent == null && root.kind == DocumentKind by { hide ForestOk, Ranked, Tallied; }
    assert Ranked(m, t.rank, t.top) by { hide ForestOk, Tallied; }
    hide Good;
    assert Owned(m) == {};
    forall k | k != DocumentKind ensures OfKind(m.Keys, k) == {} && Orphans(m, k) == {} {
    }
  }

  /** Clearing leaves the document without children. */
  lemma {:induction false} BaredEmpty(t: Tree, root: XMLNode, t': Tree)
    requires Good(t, root) && root in t.kids && Ranked(t.m, t.rank, t.top)
    requires t' == Bared(t, root, t.kids[root], |t.kids[root]|, t'.pools)
    ensures root in t'.kids && t'.kids[root] == [] && t'.pending == t.pending && t'.m.Keys <= t.m.Keys
  {
    hide Bared;
    assert root in t.m by { hide ForestOk, Ranked, Tallied; }
    hide Good;
    BaredEnd(t, root, root, t.kids[root], t'.pools);
    BaredRoot(t, root, t');
  }

  /** Nodes outside the document that a clear leaves behind: none has a parent or owns an attribute. */
  ghost predicate OutsideBare(t: Tree, root: XMLNode)
    requires Ranked(t.m, t.rank, t.top)
  {
    forall n | n in t.m && !Within(t.m, t.rank, t.top, n, root) :: t.m[n].parent == null && t.m[n].attributes == []
  }

  /** Clearing leaves the document and what is outside it. */
  lemma {:induction false} BaredRoot(t: Tree, root: XMLNode, t': Tree)
    requires Good(t, root) && root in t.kids && Ranked(t.m, t.rank, t.top)
    requires t' == Bared(t, root, t.kids[root], |t.kids[root]|, t'.pools)
    ensures t'.pending == t.pending
    ensures forall n | n in t'.m :: n in t.m && t'.m[n].parent == t.m[n].parent && t'.m[n].attributes == t.m[n].attributes
    ensures forall n | n in t.m :: n in t'.m <==> n == root || !Within(t.m, t.rank, t.top, n, root)
    ensures root in t.m && t.m[root].parent == null && t.m[root].attributes == []
  {
    hide Bared, Within, WithinSome, Ranked;
    var ks := t.kids[root];
    assert root in t.m && t.m[root].parent == null && t.m[root].attributes == [] by { hide ForestOk, Ranked, Tallied; }
    BaredRest(t, root, ks, |ks|, t'.pools);
    BaredParents(t, root, ks, |ks|, t'.pools);
    forall n | n in t.m ensures n in t'.m <==> n == root || !Within(t.m, t.rank, t.top, n, root) {
      WithinSomeChild(t, root, root, n);
    }
    hide Good;
  }

  /** Once the document is bare the counters agree exactly when nothing outside it had a parent or owned an attribute. */
  lemma {:induction false} BaredBalance(t: Tree, root: XMLNode, t': Tree)
    requires Good(t, root) && root in t.kids && t.pending == {} && Ranked(t.m, t.rank, t.top)
    requires Good(t', root) && t' == Bared(t, root, t.kids[root], |t.kids[root]|, t'.pools)
    ensures InBalance(t'.pools) <==> OutsideBare(t, root)
    ensures forall k | k != DocumentKind :: k in t'.pools.nodes
  {
    hide Bared, Within, InBalance, Ranked;
    assert forall k | k != DocumentKind :: k in t'.pools.nodes by { hide Sound, Bared; }
    BaredRoot(t, root, t');
    Balance(t', root);
    hide Good;
  }
}
