/**
 What a node holds: its value; and the attributes of an element, a list searched by name,
 appended to, and freed with the element, whose pool counts them as tracked from the start.
 */
module DomAttributes {
  import opened Wrappers
  import opened DomForest
  import opened DomSteps
  import X = XmlTree
  import P = XmlPrinterSpec

  // ------------------------------------------------------------- one list

  /** `FindAttribute`. */
  function Find(list: seq<X.Attribute>, name: string): (r: Option<string>) {
    if list == [] then None else if list[0].name == name then Some(list[0].value) else Find(list[1..], name)
  }

  /** The list after `SetAttribute`: the first of that name gets the value, or a new one comes last. */
  function Named(list: seq<X.Attribute>, name: string, value: string): (r: seq<X.Attribute>)
  {
    if list == [] then [X.Attribute(name, value)]
    else if list[0].name == name then [X.Attribute(name, value)] + list[1..]
    else [list[0]] + Named(list[1..], name, value)
  }

  /** The list without the first attribute of that name. */
  function Dropped(list: seq<X.Attribute>, name: string): (r: seq<X.Attribute>) {
    if list == [] then [] else if list[0].name == name then list[1..] else [list[0]] + Dropped(list[1..], name)
  }

  lemma {:induction false} FoundNames(list: seq<X.Attribute>, name: string)
    ensures Find(list, name) == None <==> forall i | 0 <= i < |list| :: list[i].name != name
  {
    if list != [] {
      FoundNames(list[1..], name);
      assert list == [list[0]] + list[1..];
    }
  }

  /** A value set is the value found, and no other name is touched. */
  lemma {:induction false} NamedFound(list: seq<X.Attribute>, name: string, value: string, other: string)
    ensures Find(Named(list, name, value), other) == if other == name then Some(value) else Find(list, other)
    ensures P.DistinctNames(list) ==> P.DistinctNames(Named(list, name, value))
  {
    if list != [] && list[0].name != name {
      NamedFound(list[1..], name, value, other);
      var rest := Named(list[1..], name, value);
      NamedFound(list[1..], name, value, list[0].name);
      FoundNames(list[1..], list[0].name);
      FoundNames(rest, list[0].name);
      assert Named(list, name, value)[1..] == rest;
      hide Named;
      if P.DistinctNames(list) {
        DistinctTail(list);
        DistinctCons(list[0], rest);
      }
    }
  }

  lemma DistinctTail(list: seq<X.Attribute>)
    requires P.DistinctNames(list) && list != []
    ensures P.DistinctNames(list[1..]) && forall i | 0 <= i < |list[1..]| :: list[1..][i].name != list[0].name
  {
  }

  lemma DistinctCons(a: X.Attribute, rest: seq<X.Attribute>)
    requires P.DistinctNames(rest) && forall i | 0 <= i < |rest| :: rest[i].name != a.name
    ensures P.DistinctNames([a] + rest)
  {
  }

  /** Where names are distinct, a name dropped is not found any more, and every other name still is. */
  lemma {:induction false} DroppedFound(list: seq<X.Attribute>, name: string, other: string)
    requires P.DistinctNames(list)
    ensures Find(Dropped(list, name), other) == if other == name then None else Find(list, other)
    ensures P.DistinctNames(Dropped(list, name))
  {
    if list != [] {
      DistinctTail(list);
      FoundNames(list[1..], list[0].name);
      if list[0].name != name {
        DroppedFound(list[1..], name, other);
        DroppedFound(list[1..], name, list[0].name);
        var rest := Dropped(list[1..], name);
        FoundNames(rest, list[0].name);
        assert Dropped(list, name)[1..] == rest;
        hide Dropped, P.DistinctNames;
        DistinctCons(list[0], rest);
      }
    }
  }

  lemma {:induction false} NamedAt(list: seq<X.Attribute>, name: string, value: string, i: nat)
    requires i <= |list| && forall j | 0 <= j < i :: list[j].name != name
    requires i < |list| ==> list[i].name == name
    ensures Named(list, name, value) == list[..i] + [X.Attribute(name, value)] + if i < |list| then list[i + 1..] else []
  {
    if i > 0 {
      NamedAt(list[1..], name, value, i - 1);
      assert list[..i] == [list[0]] + list[1..][..i - 1];
    }
  }

  lemma {:induction false} DroppedAt(list: seq<X.Attribute>, name: string, i: nat)
    requires i <= |list| && forall j | 0 <= j < i :: list[j].name != name
    requires i < |list| ==> list[i].name == name
    ensures Dropped(list, name) == list[..i] + if i < |list| then list[i + 1..] else []
  {
    if i > 0 {
      DroppedAt(list[1..], name, i - 1);
      assert list[..i] == [list[0]] + list[1..][..i - 1];
    }
  }

  // ------------------------------------------------------------- all lists, and their pool

  function AttributesCounted(pools: Pools, current: int, untracked: int): Pools {
    pools.(attributes := Pool(pools.attributes.currentAllocs + current, pools.attributes.untracked + untracked))
  }

  lemma LossOfAttributes(pools: Pools, lost: Losses, current: int, untracked: int)
    ensures Unlost(AttributesCounted(pools, current, untracked), lost) == AttributesCounted(Unlost(pools, lost), current, untracked)
  {
  }

  /** The tree with another list of attributes at `n`. */
  ghost function WithAttributes(t: Tree, n: XMLNode, list: seq<X.Attribute>): Tree
    requires n in t.m
  {
    t.(m := t.m[n := t.m[n].(attributes := list)],
       pools := AttributesCounted(t.pools, |list| - |t.m[n].attributes|, 0))
  }

  ghost function Row(n: XMLNode, k: nat): (r: set<(XMLNode, int)>) {
    set i: int | 0 <= i < k :: (n, i)
  }

  lemma {:induction false} RowSize(n: XMLNode, k: nat)
    ensures |Row(n, k)| == k
  {
    if k > 0 {
      RowSize(n, k - 1);
      assert Row(n, k) == Row(n, k - 1) + {(n, k - 1)};
    }
  }

  lemma {:induction false} OwnedRow(m: Memory, n: XMLNode)
    requires n in m
    ensures |Owned(m)| == |Owned(m - {n})| + |m[n].attributes|
  {
    var row := Row(n, |m[n].attributes|);
    RowSize(n, |m[n].attributes|);
    assert Owned(m) == Owned(m - {n}) + row;
    assert Owned(m - {n}) !! row;
  }

  lemma {:induction false} OwnedWith(m: Memory, n: XMLNode, list: seq<X.Attribute>)
    requires n in m
    ensures |Owned(m[n := m[n].(attributes := list)])| == |Owned(m)| - |m[n].attributes| + |list|
  {
    hide Owned;
    var m' := m[n := m[n].(attributes := list)];
    OwnedRow(m, n);
    OwnedRow(m', n);
    assert m' - {n} == m - {n};
  }

  ghost predicate SameLinks(m: Memory, m': Memory) {
    m'.Keys == m.Keys && forall x | x in m :: m'[x].(value := m[x].value, attributes := m[x].attributes) == m[x]
  }

  lemma {:induction false} SameLists(m: Memory, m': Memory, kids: Children)
    requires ForestOk(m, kids) && SameLinks(m, m')
    ensures ForestOk(m', kids)
  {
    forall x | x in m' ensures ListOk(m', x, kids[x]) {
      assert ListOk(m, x, kids[x]);
      forall i | 0 <= i < |kids[x]| ensures LinkOk(m', x, kids[x], i) {
        assert LinkOk(m, x, kids[x], i);
      }
    }
    hide ListOk;
  }

  lemma SameRest(m: Memory, m': Memory, pending: set<XMLNode>, rank: Ranks, top: nat, k: Kind)
    requires SameLinks(m, m')
    ensures Ranked(m, rank, top) ==> Ranked(m', rank, top)
    ensures Tally(m', pending, k) == Tally(m, pending, k)
  {
    assert Orphans(m', k) == Orphans(m, k);
  }

  lemma {:induction false} WithTallied(t: Tree, n: XMLNode, list: seq<X.Attribute>)
    requires Tallied(t.m, t.pending, t.pools) && n in t.m && SameLinks(t.m, WithAttributes(t, n, list).m)
    ensures var t' := WithAttributes(t, n, list); Tallied(t'.m, t'.pending, t'.pools)
  {
    hide Owned, Tally;
    var t' := WithAttributes(t, n, list);
    OwnedWith(t.m, n, list);
    forall k | k != DocumentKind ensures k in t'.pools.nodes && t'.pools.nodes[k] == Tally(t'.m, t'.pending, k) {
      SameRest(t.m, t'.m, t.pending, t.rank, t.top, k);
    }
  }

  /** Changing the attributes of an element changes no list of children, and the attribute pool counts them. */
  lemma {:induction false} WithGood(t: Tree, root: XMLNode, n: XMLNode, list: seq<X.Attribute>)
    requires Good(t, root) && n in t.m && n.kind == ElementKind
    ensures Good(WithAttributes(t, n, list), root)
  {
    hide Tallied, ForestOk, Ranked;
    var t' := WithAttributes(t, n, list);
    assert SameLinks(t.m, t'.m) && RootOk(t'.m, root) by { hide ForestOk, Ranked, Tallied; }
    hide RootOk;
    WithTallied(t, n, list);
    SameLists(t.m, t'.m, t.kids);
    SameRest(t.m, t'.m, t.pending, t.rank, t.top, ElementKind);
    hide WithAttributes, SameLinks;
    assert t'.kids == t.kids && t'.rank == t.rank && t'.top == t.top by { hide Sound; assert t' == WithAttributes(t, n, list); }
  }

  lemma WithRest(t: Tree, n: XMLNode, list: seq<X.Attribute>)
    requires n in t.m
    ensures var t' := WithAttributes(t, n, list);
      t'.m.Keys == t.m.Keys && t'.kids == t.kids && t'.rank == t.rank && t'.top == t.top && t'.pending == t.pending &&
      t'.m[n].attributes == list && SameLinks(t.m, t'.m)
  {
  }

  lemma WithSame(t: Tree, n: XMLNode)
    requires n in t.m
    ensures WithAttributes(t, n, t.m[n].attributes) == t
  {
    var t' := WithAttributes(t, n, t.m[n].attributes);
    assert t'.m == t.m;
  }

  lemma WithTwice(t: Tree, n: XMLNode, list: seq<X.Attribute>, list': seq<X.Attribute>)
    requires n in t.m
    ensures n in WithAttributes(t, n, list).m && WithAttributes(WithAttributes(t, n, list), n, list') == WithAttributes(t, n, list')
  {
    assert WithAttributes(WithAttributes(t, n, list), n, list').m == WithAttributes(t, n, list').m;
  }

  lemma NoAttributes(t: Tree, root: XMLNode, n: XMLNode)
    requires Good(t, root) && n in t.m
    ensures t.m[n].attributes != [] ==> n.kind == ElementKind
  {
    hide ForestOk, Ranked, Tallied;
  }

  // ------------------------------------------------------------- values

  /** `SetValue`. */
  ghost function Valued(t: Tree, n: XMLNode, value: string): Tree
    requires n in t.m
  {
    t.(m := t.m[n := t.m[n].(value := value)])
  }

  /** A value changes neither lists nor counters. */
  lemma {:induction false} ValuedGood(t: Tree, root: XMLNode, n: XMLNode, value: string)
    requires Good(t, root) && n in t.m
    ensures Good(Valued(t, n, value), root)
  {
    hide Tallied, ForestOk, Ranked;
    var t' := Valued(t, n, value);
    assert SameLinks(t.m, t'.m) && RootOk(t'.m, root) by { hide ForestOk, Ranked, Tallied; }
    hide RootOk;
    ValuedTallied(t, n, value);
    SameLists(t.m, t'.m, t.kids);
    SameRest(t.m, t'.m, t.pending, t.rank, t.top, ElementKind);
    hide SameLinks;
  }

  lemma {:induction false} ValuedTallied(t: Tree, n: XMLNode, value: string)
    requires Tallied(t.m, t.pending, t.pools) && n in t.m && SameLinks(t.m, Valued(t, n, value).m)
    ensures var t' := Valued(t, n, value); Tallied(t'.m, t'.pending, t'.pools)
  {
    hide Owned, Tally;
    var t' := Valued(t, n, value);
    SameOwned(t.m, t'.m);
    forall k | k != DocumentKind ensures k in t'.pools.nodes && t'.pools.nodes[k] == Tally(t'.m, t'.pending, k) {
      SameRest(t.m, t'.m, t.pending, t.rank, t.top, k);
    }
  }
}
