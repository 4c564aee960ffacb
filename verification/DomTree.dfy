/**
 The document tree on the heap: nodes relinked in place by the methods of `XMLNode` and
 `XMLDocument`, each compared with its step on a `Tree`.
 */
module DomTree {
  import opened DomForest
  import opened DomSteps
  import opened DomAttributes
  import opened DomDelete
  import X = XmlTree

  method UnlinkLinks(p: XMLNode, child: XMLNode, ghost m: Memory)
    requires Synced(m) && p in m && Unlinkable(m, child)
    modifies m.Keys
    ensures Synced(Unlinked(m, p, child))
  {
    assert child.prev == m[child].prev && child.next == m[child].next;
    p.Unlink(child);
  }

  method LinkEnd(p: XMLNode, c: XMLNode, ghost t: Tree, ghost i: nat)
    requires Synced(t.m) && LinkableAt(t, p, i, c) && i == |t.kids[p]|
    modifies t.m.Keys
    ensures Synced(Put(t, p, i, c).m)
  {
    hide Lifted;
    ghost var ks := t.kids[p];
    hide Placeable;
    assert p.lastChild != null ==> p.lastChild == ks[|ks| - 1];
    assert p.lastChild == null <==> ks == [];
    p.LinkEnd(c);
  }

  method LinkFirst(p: XMLNode, c: XMLNode, ghost t: Tree)
    requires Synced(t.m) && LinkableAt(t, p, 0, c)
    modifies t.m.Keys
    ensures Synced(Put(t, p, 0, c).m)
  {
    hide Lifted;
    ghost var ks := t.kids[p];
    hide Placeable;
    assert p.firstChild != null ==> p.firstChild == ks[0];
    assert p.firstChild == null <==> ks == [];
    p.LinkFirst(c);
  }

  method LinkAfter(p: XMLNode, a: XMLNode, c: XMLNode, ghost t: Tree, ghost i: nat)
    requires Synced(t.m) && LinkableAt(t, p, i, c) && 0 < i < |t.kids[p]| && a == t.kids[p][i - 1]
    modifies t.m.Keys
    ensures Synced(Put(t, p, i, c).m)
  {
    hide Lifted, Placeable, Put, Linkable;
    AfterLinks(t, p, i, c, a);
    PutLinks(t, p, i, c);
    RelinkAfter(p, a, t.kids[p][i], c, t.m);
  }

  lemma AfterLinks(t: Tree, p: XMLNode, i: nat, c: XMLNode, a: XMLNode)
    requires LinkableAt(t, p, i, c) && 0 < i < |t.kids[p]| && a == t.kids[p][i - 1]
    ensures p in t.kids && var n := t.kids[p][i];
      p in t.m && a in t.m && n in t.m && c in t.m && t.m[a].next == n && c != a && c != n && c != p
  {
    hide Ranked;
    assert t.m[t.kids[p][i - 1]].next == NodeAt(t.kids[p], i);
  }

  lemma PutLinks(t: Tree, p: XMLNode, i: nat, c: XMLNode)
    requires LinkableAt(t, p, i, c) && 0 < i < |t.kids[p]|
    ensures Put(t, p, i, c).m == Linked(t.m, p, t.kids[p][i - 1], t.kids[p][i], c)
  {
    hide Placeable, Linkable;
  }

  method RelinkAfter(p: XMLNode, a: XMLNode, ghost n: XMLNode, c: XMLNode, ghost m: Memory)
    requires Synced(m) && p in m && a in m && n in m && c in m && m[a].next == n && c != a && c != n
    modifies m.Keys
    ensures Synced(Linked(m, p, a, n, c))
  {
    assert a.next == n;
    p.LinkAfter(a, c);
  }

  lemma SyncedFreed(m: Memory, n: XMLNode)
    requires Synced(m)
    ensures Synced(m - {n})
  {
  }

  lemma SyncedPart(m: Memory, n: XMLNode)
    requires Synced(m) && n in m
    ensures Synced(map[n := m[n]])
  {
  }

  lemma SyncedAt(m: Memory, n: XMLNode)
    requires Synced(m) && n in m
    ensures n.firstChild == m[n].first && n.parent == m[n].parent
  {
  }

  method ClearEnds(n: XMLNode, ghost m: Memory)
    requires Synced(m) && n in m && m[n].first == null && m[n].last == null
    modifies n
    ensures Synced(m)
  {
    n.firstChild := null;
    n.lastChild := null;
  }

  method SetList(n: XMLNode, list: seq<X.Attribute>, ghost t: Tree)
    requires Synced(t.m) && n in t.m
    modifies n`attributes
    ensures Synced(WithAttributes(t, n, list).m)
  {
    n.attributes := list;
  }

  method SetText(n: XMLNode, value: string, ghost t: Tree)
    requires Synced(t.m) && n in t.m
    modifies n`value
    ensures Synced(Valued(t, n, value).m)
  {
    n.value := value;
  }

  /** The place of the first attribute of that name; the number of attributes when there is none. */
  method IndexOfName(n: XMLNode, name: string) returns (i: nat)
    ensures i <= |n.attributes| && (forall j | 0 <= j < i :: n.attributes[j].name != name)
    ensures i < |n.attributes| ==> n.attributes[i].name == name
  {
    i := 0;
    while i < |n.attributes| && n.attributes[i].name != name
      invariant i <= |n.attributes| && forall j | 0 <= j < i :: n.attributes[j].name != name
    {
      i := i + 1;
    }
  }

  class DocumentTree {
    const root: XMLNode
    var pools: Pools
    var writeBOM: bool
    ghost var t: Tree
    ghost var lost: Losses

    /** The tree counts the nodes as if none were lost. */
    ghost predicate Valid()
      reads this, t.m.Keys
    {
      Synced(t.m) && Good(t, root) && t.pools == Unlost(pools, lost)
    }

    constructor ()
      ensures Valid() && fresh(root) && t == EmptyTree(root) && lost == map[] && !writeBOM
    {
      var doc := new XMLNode(DocumentForm, null);
      root := doc;
      pools := NoNodes();
      writeBOM := false;
      t, lost := EmptyTree(doc), map[];
      NoneLost(NoNodes());
      EmptyDocument(doc);
      hide Good;
    }

    /** `CreateUnlinkedNode`. */
    method NewNode(form: Form) returns (node: XMLNode)
      requires Valid() && form != DocumentForm
      modifies this`t, this`pools
      ensures Valid() && fresh(node) && node.form == form && node.kind == PoolOf(form) && node.document == root
      ensures old(PoolOf(form) in t.pools.nodes) && t == Added(old(t), node)
    {
      hide Good, Synced;
      node := new XMLNode(form, root);
      AddedGood(t, root, node);
      SyncedAdded(t.m, node);
      LossCounted(pools, lost, node.kind, 1, 1);
      pools := Counted(pools, node.kind, 1, 1);
      t := Added(t, node);
    }

    /** `XMLNode::Unlink`. */
    method Unlink(p: XMLNode, child: XMLNode)
      requires Valid() && p in t.m && child in t.m && child.parent == p
      modifies this`t, t.m.Keys
      ensures Valid() && t == Cut(old(t), p, child)
    {
      hide Good, Unlinkable;
      CutGood(t, root, p, child);
      hide Synced;
      UnlinkLinks(p, child, t.m);
      t := Cut(t, p, child);
    }

    /** `SetTracked`, for a node about to be put somewhere or freed. */
    method SetTracked(node: XMLNode)
      requires Valid() && node in t.m && node !in t.pending && node != root && t.m[node].parent == null
      modifies this`t, this`pools
      ensures Takeable(old(t), node) && Valid() && t == Taken(old(t), node)
    {
      hide Good, Synced;
      TakenGood(t, root, node);
      LossCounted(pools, lost, node.kind, 0, -1);
      pools := Counted(pools, node.kind, 0, -1);
      t := Taken(t, node);
    }

    /** `InsertChildPreamble`. */
    method InsertChildPreamble(insertThis: XMLNode)
      requires Valid() && insertThis in t.m && insertThis !in t.pending && insertThis != root
      modifies this`t, this`pools, t.m.Keys
      ensures Takeable(old(t), insertThis)
      ensures Valid() && t == Taken(old(t), insertThis)
    {
      hide Good;
      TakenGood(t, root, insertThis);
      if insertThis.parent != null {
        Unlink(insertThis.parent, insertThis);
      } else {
        SetTracked(insertThis);
      }
    }

    /** `InsertEndChild` after its preamble. */
    method LinkPendingEnd(p: XMLNode, c: XMLNode, ghost i: nat)
      requires Valid() && Ready(t, p, c) && i == |t.kids[p]|
      modifies this`t, t.m.Keys
      ensures Valid() && t == Put(old(t), p, i, c)
    {
      hide Good, Linkable, Placeable, Ready, Put, Synced;
      ReadyGood(t, root, p, i, c);
      ghost var t0 := t;
      t := Put(t, p, i, c);
      LinkEnd(p, c, t0, i);
    }

    /** `InsertFirstChild` after its preamble. */
    method LinkPendingFirst(p: XMLNode, c: XMLNode)
      requires Valid() && Ready(t, p, c)
      modifies this`t, t.m.Keys
      ensures Valid() && t == Put(old(t), p, 0, c)
    {
      hide Good, Linkable, Placeable, Ready, Put, Synced;
      ReadyGood(t, root, p, 0, c);
      ghost var t0 := t;
      t := Put(t, p, 0, c);
      LinkFirst(p, c, t0);
    }

    /** `InsertAfterChild` after its preamble. */
    method LinkPendingAfter(p: XMLNode, a: XMLNode, c: XMLNode, ghost i: nat)
      requires Valid() && Ready(t, p, c) && 0 < i < |t.kids[p]| && t.kids[p][i - 1] == a
      modifies this`t, t.m.Keys
      ensures Valid() && t == Put(old(t), p, i, c)
    {
      hide Good, Linkable, Placeable, Ready, Put, Synced;
      ReadyGood(t, root, p, i, c);
      ghost var t0 := t;
      t := Put(t, p, i, c);
      LinkAfter(p, a, c, t0, i);
    }

    method MoveToEnd(p: XMLNode, c: XMLNode)
      requires Valid() && p in t.m && c in t.m && c !in t.pending && c != root
      requires !Within(t.m, t.rank, t.top, p, c)
      modifies this`t, this`pools, t.m.Keys
      ensures Valid() && Moved(old(t), t, p, |Without(old(t.kids[p]), c)|, c)
    {
      hide Good, Synced, Within, Ready, Takeable, Taken, SameContents;
      MoveReady(t, root, p, c);
      InsertChildPreamble(c);
      ghost var taken := t;
      LinkPendingEnd(p, c, |t.kids[p]|);
      PutContents(old(t).m, taken, p, |taken.kids[p]|, c);
    }

    method MoveToFront(p: XMLNode, c: XMLNode)
      requires Valid() && p in t.m && c in t.m && c !in t.pending && c != root
      requires !Within(t.m, t.rank, t.top, p, c)
      modifies this`t, this`pools, t.m.Keys
      ensures Valid() && Moved(old(t), t, p, 0, c)
    {
      hide Good, Synced, Within, Ready, Takeable, Taken, SameContents;
      MoveReady(t, root, p, c);
      InsertChildPreamble(c);
      ghost var taken := t;
      LinkPendingFirst(p, c);
      PutContents(old(t).m, taken, p, 0, c);
    }

    /** `InsertEndChild`: out of the old place, and last below `p`; a node of another document is refused. */
    method InsertEndChild(p: XMLNode, addThis: XMLNode) returns (added: XMLNode?)
      requires Valid() && p in t.m && Insertable(t, root, p, addThis)
      modifies this`t, this`pools, t.m.Keys
      ensures Valid() && added == if addThis.document == root then addThis else null
      ensures addThis.document != root ==> t == old(t)
      ensures addThis.document == root ==> Moved(old(t), t, p, |Without(old(t.kids[p]), addThis)|, addThis)
    {
      hide Good, Synced, Within, Moved;
      SameDocument(t, root, p);
      if addThis.document != p.document {
        return null;
      }
      MoveToEnd(p, addThis);
      added := addThis;
    }

    /** `InsertFirstChild`: out of the old place, and first below `p`; a node of another document is refused. */
    method InsertFirstChild(p: XMLNode, addThis: XMLNode) returns (added: XMLNode?)
      requires Valid() && p in t.m && Insertable(t, root, p, addThis)
      modifies this`t, this`pools, t.m.Keys
      ensures Valid() && added == if addThis.document == root then addThis else null
      ensures addThis.document != root ==> t == old(t)
      ensures addThis.document == root ==> Moved(old(t), t, p, 0, addThis)
    {
      hide Good, Synced, Within, Moved;
      SameDocument(t, root, p);
      if addThis.document != p.document {
        return null;
      }
      MoveToFront(p, addThis);
      added := addThis;
    }

    /** `InsertAfterChild` between two siblings. */
    method InsertInGap(p: XMLNode, a: XMLNode, c: XMLNode, ghost i: nat)
      requires Valid() && p in t.m && c in t.m && c !in t.pending && c != root
      requires !Within(t.m, t.rank, t.top, p, c)
      requires 0 < i < |Without(t.kids[p], c)| && Without(t.kids[p], c)[i - 1] == a
      modifies this`t, this`pools, t.m.Keys
      ensures Valid() && Moved(old(t), t, p, i, c)
    {
      hide Good, Synced, Within, Ready, Takeable, Taken, SameContents;
      MoveReady(t, root, p, c);
      InsertChildPreamble(c);
      ghost var taken := t;
      LinkPendingAfter(p, a, c, i);
      PutContents(old(t).m, taken, p, i, c);
    }

    /**
     `InsertAfterChild`: refused when `addThis` belongs to another document or `afterThis` is no
     child of `p`; at the end when it is the last child; else right after it.  A node cannot be
     put after itself unless it is last, and the last node cannot be put where it is: see
     `SelfAfter` and `NoGap`.
     */
    method InsertAfterChild(p: XMLNode, afterThis: XMLNode, addThis: XMLNode) returns (added: XMLNode?)
      requires Valid() && p in t.m && Insertable(t, root, p, addThis)
      requires afterThis.parent == p ==> afterThis in t.m && (afterThis.next != null ==> Gap(t, afterThis, addThis))
      modifies this`t, this`pools, t.m.Keys
      ensures Valid() && added == if addThis.document == root && old(afterThis.parent) == p then addThis else null
      ensures added == null ==> t == old(t)
      ensures added != null ==> Moved(old(t), t, p, PositionAfter(Without(old(t.kids[p]), addThis), afterThis), addThis)
    {
      hide Within, Gap, PositionAfter, Moved;
      SameDocument(t, root, p);
      if addThis.document != p.document || afterThis.parent != p {
        return null;
      }
      AfterPosition(t, root, p, afterThis, addThis);
      ghost var i := PositionAfter(Without(t.kids[p], addThis), afterThis);
      hide Good;
      if afterThis.next == null {
        added := InsertEndChild(p, addThis);
      } else {
        InsertInGap(p, afterThis, addThis, i);
        added := addThis;
      }
    }

    /** `SetValue`: the name of an element, the text of any other node. */
    method SetValue(n: XMLNode, value: string)
      requires Valid() && n in t.m
      modifies this`t, n`value
      ensures Valid() && t == Valued(old(t), n, value)
    {
      hide Good, Synced;
      ValuedGood(t, root, n, value);
      SetText(n, value, t);
      t := Valued(t, n, value);
    }

    /** `CreateAttribute`, linked behind the attributes the element has. */
    method PushAttribute(n: XMLNode, a: X.Attribute)
      requires Valid() && n in t.m && n.kind == ElementKind
      modifies this`t, this`pools, n`attributes
      ensures Valid() && t == WithAttributes(old(t), n, old(t.m[n].attributes) + [a])
    {
      hide Good;
      assert n.attributes == t.m[n].attributes;
      hide Synced;
      ghost var list := n.attributes + [a];
      WithGood(t, root, n, list);
      LossOfAttributes(pools, lost, 1, 1);
      pools := AttributesCounted(pools, 1, 1);
      LossOfAttributes(pools, lost, 0, -1);
      pools := AttributesCounted(pools, 0, -1);
      SetList(n, n.attributes + [a], t);
      t := WithAttributes(t, n, list);
    }

    /** An attribute made and freed again without having been linked. */
    method SpoiltAttribute()
      requires Valid()
      modifies this`pools
      ensures Valid() && pools == old(pools)
    {
      pools := AttributesCounted(pools, 1, 1);
      pools := AttributesCounted(pools, 0, -1);
      pools := AttributesCounted(pools, -1, 0);
    }

    /** The list of `n` after one attribute got a value, or was freed. */
    method ReplaceAttributes(n: XMLNode, list: seq<X.Attribute>, change: int)
      requires Valid() && n in t.m && n.kind == ElementKind && |list| - |t.m[n].attributes| == change
      modifies this`t, this`pools, n`attributes
      ensures Valid() && t == WithAttributes(old(t), n, list) && n.attributes == list
    {
      hide Good, Synced;
      WithGood(t, root, n, list);
      LossOfAttributes(pools, lost, change, 0);
      pools := AttributesCounted(pools, change, 0);
      SetList(n, list, t);
      t := WithAttributes(t, n, list);
    }

    /** `SetAttribute` by name: the first attribute found gets the value, else a new one is made. */
    method SetAttribute(n: XMLNode, name: string, value: string)
      requires Valid() && n in t.m && n.kind == ElementKind
      modifies this`t, this`pools, n`attributes
      ensures Valid() && t == WithAttributes(old(t), n, Named(old(t.m[n].attributes), name, value))
    {
      hide Good, WithAttributes;
      ghost var list := t.m[n].attributes;
      assert n.attributes == list;
      hide Synced;
      var i := IndexOfName(n, name);
      NamedAt(list, name, value, i);
      if i == |n.attributes| {
        assert list[..i] + [X.Attribute(name, value)] + [] == list + [X.Attribute(name, value)];
        PushAttribute(n, X.Attribute(name, value));
      } else {
        assert list[..i] + [X.Attribute(name, value)] + list[i + 1..] == list[i := X.Attribute(name, value)];
        ReplaceAttributes(n, n.attributes[i := X.Attribute(name, value)], 0);
      }
    }

    /** `DeleteAttribute` by name: the first of that name goes back to its pool. */
    method DeleteAttribute(n: XMLNode, name: string)
      requires Valid() && n in t.m && n.kind == ElementKind
      modifies this`t, this`pools, n`attributes
      ensures Valid() && t == WithAttributes(old(t), n, Dropped(old(t.m[n].attributes), name))
    {
      hide Good, WithAttributes;
      ghost var list := t.m[n].attributes;
      assert n.attributes == list;
      WithSame(t, n);
      hide Synced;
      var i := IndexOfName(n, name);
      DroppedAt(list, name, i);
      if i < |n.attributes| {
        ReplaceAttributes(n, n.attributes[..i] + n.attributes[i + 1..], -1);
      } else {
        assert list[..i] + [] == list;
      }
    }

    /** `MemPool::Free` of a childless node. */
    method FreeNode(n: XMLNode)
      requires Valid() && n in t.pending && n in t.kids && t.kids[n] == [] && n in t.m && t.m[n].attributes == []
      modifies this`t, this`pools
      ensures old(n.kind in t.pools.nodes) && Valid() && t == Freed(old(t), n)
    {
      hide Good, Synced;
      FreedGood(t, root, n);
      SyncedFreed(t.m, n);
      LossCounted(pools, lost, n.kind, -1, 0);
      pools := Counted(pools, n.kind, -1, 0);
      t := Freed(t, n);
    }

    /** The loop of the destructor of an element: its attributes go back to their pool. */
    method FreeAttributes(n: XMLNode)
      requires Valid() && n in t.m
      modifies this`t, this`pools, n`attributes
      ensures Valid() && t == WithAttributes(old(t), n, [])
    {
      hide Good, WithAttributes;
      ghost var t0 := t;
      assert n.attributes == t.m[n].attributes;
      NoAttributes(t, root, n);
      WithSame(t, n);
      hide Synced;
      while n.attributes != []
        invariant Valid() && n in t0.m && t == WithAttributes(t0, n, n.attributes)
        invariant n.attributes != [] ==> n.kind == ElementKind
        decreases |n.attributes|
      {
        WithRest(t0, n, n.attributes);
        WithTwice(t0, n, n.attributes, n.attributes[1..]);
        ReplaceAttributes(n, n.attributes[1..], -1);
      }
    }

    /**
     The static `DeleteNode`, for a node in no list: its attributes and its children go, and then
     it goes back to its pool.
     */
    method DeletePending(n: XMLNode)
      requires Valid() && n in t.pending && n in t.m
      modifies this`t, this`pools, t.m.Keys
      ensures Valid() && Ranked(old(t).m, old(t).rank, old(t).top) && t == Pruned(old(t), n, t.pools)
      decreases t.rank[n], 1
    {
      hide Synced, Good, Bared, Pruned, WithAttributes;
      StrippedPruned(t, root, n);
      WithRest(t, n, []);
      FreeAttributes(n);
      ghost var t0, ks := t, t.kids[n];
      DeleteChildren(n);
      BaredEnd(t0, root, n, ks, t.pools);
      ghost var pools0 := t.pools;
      FreeNode(n);
      BaredAll(t0, root, n, pools0);
    }

    /** `DeleteChild`. */
    method DeleteChild(p: XMLNode, node: XMLNode)
      requires Valid() && p in t.m && node in t.m && node.parent == p
      modifies this`t, this`pools, t.m.Keys
      ensures Valid()
      ensures var c := Cut(old(t), p, node); Ranked(c.m, c.rank, c.top) && t == Pruned(c, node, t.pools)
      decreases t.rank[node], 2
    {
      hide Synced, Good, Pruned;
      Unlink(p, node);
      DeletePending(node);
    }

    /** `DeleteChildren`. */
    method DeleteChildren(n: XMLNode)
      requires Valid() && n in t.m
      modifies this`t, this`pools, t.m.Keys
      ensures Valid() && n in old(t).kids && Ranked(old(t).m, old(t).rank, old(t).top)
      ensures t == Bared(old(t), n, old(t).kids[n], |old(t).kids[n]|, t.pools)
      decreases t.rank[n], 0
    {
      hide Good, Bared, Ranked, Baring, Cut, Pruned, Synced;
      BaringStart(t, root, n);
      ghost var t0, ks, j := t, t.kids[n], 0;
      SyncedAt(t.m, n);
      while n.firstChild != null
        invariant Valid() && Baring(t0, root, n, ks, j, t) && n in t.m && n.firstChild == t.m[n].first && t.rank == t0.rank && t.m.Keys <= t0.m.Keys
        decreases |ks| - j
      {
        ghost var b := t;
        BaringChild(t0, root, n, ks, j, b);
        SyncedAt(t.m, ks[j]);
        DeleteChild(n, n.firstChild);
        BaringStep(t0, root, n, ks, j, b, t);
        SyncedAt(t.m, n);
        j := j + 1;
      }
      BaringEnd(t0, root, n, ks, j, t);
      ClearEnds(n, t.m);
    }

    /** `XMLDocument::DeleteNode`: a node never put anywhere is first counted as if it had been. */
    method DeleteNode(node: XMLNode)
      requires Valid() && node in t.m && node != root && node !in t.pending
      modifies this`t, this`pools, t.m.Keys
      ensures Valid() && Takeable(old(t), node)
      ensures var c := Taken(old(t), node); Ranked(c.m, c.rank, c.top) && t == Pruned(c, node, t.pools)
    {
      hide Good, Pruned;
      TakenGood(t, root, node);
      if node.parent != null {
        DeleteChild(node.parent, node);
      } else {
        SetTracked(node);
        DeletePending(node);
      }
    }

    /**
     The static `DeleteNode` of a node that was read in vain: it goes with all below it, and is never
     counted as tracked.
     */
    method DropNode(node: XMLNode)
      requires Valid() && node in t.m && node != root && node !in t.pending && node.parent == null
      modifies this`t, this`pools, this`lost, t.m.Keys
      ensures Valid() && Takeable(old(t), node)
      ensures var c := Taken(old(t), node); Ranked(c.m, c.rank, c.top) && t == Pruned(c, node, t.pools)
    {
      hide Good, Pruned, Unlost, LossOf;
      TakenGood(t, root, node);
      assert t.m[node].parent == null;
      hide Synced;
      OneLost(pools, lost, node.kind);
      lost := lost[node.kind := LossOf(lost, node.kind) + 1];
      t := Taken(t, node);
      DeletePending(node);
    }

    /** `Clear` of all four pools, whatever they still hold: nothing but the bare document stays. */
    method ClearPools()
      requires Valid() && root in t.kids && t.kids[root] == []
      modifies this`t, this`pools, this`lost
      ensures Valid() && t == Alone(old(t), root) && pools == NoNodes() && lost == map[]
    {
      hide Good, Synced;
      AloneGood(t, root);
      SyncedPart(t.m, root);
      NoneLost(NoNodes());
      pools, lost := NoNodes(), map[];
      t := Alone(t, root);
    }

    /**
     `Clear`, with the comparison of the counters made in debug builds: they agree exactly when
     no node outside the document had a parent or owned an attribute.
     */
    method Clear() returns (balanced: bool)
      requires Valid() && t.pending == {} && lost == map[]
      modifies this`t, this`pools, t.m.Keys
      ensures Valid() && root in old(t).kids && Ranked(old(t).m, old(t).rank, old(t).top)
      ensures t == Bared(old(t), root, old(t).kids[root], |old(t).kids[root]|, t.pools)
      ensures balanced <==> OutsideBare(old(t), root)
    {
      hide Bared, Synced, Within;
      ghost var t0 := t;
      DeleteChildren(root);
      BaredBalance(t0, root, t);
      NoneLost(pools);
      hide Good;
      balanced := Agree(pools);
    }
  }
}
