/**
 The pool of database connections: a list of slots, searched from the front for one not in use;
 a slot released goes to the back.
 */
module ConnectionPool {
  import opened Wrappers

  type Connection = int

  /**
   The pool as its clients see it: the connections in the order of the list, who holds which,
   and when each was last released, on a clock that counts releases.
   */
  datatype Pool = Pool(order: seq<Connection>, held: map<nat, Connection>, released: map<Connection, int>, clock: int)

  /** A client is a number; each acquires and releases through its own guard. */
  datatype Op = Acquire(client: nat) | Release(client: nat)

  predicate Distinct(s: seq<Connection>) {
    forall i, j | 0 <= i < j < |s| :: s[i] != s[j]
  }

  predicate Leased(p: Pool, c: Connection) {
    exists k :: k in p.held && p.held[k] == c
  }

  /** The position of the first connection nobody holds; the length when there is none. */
  function FirstFree(p: Pool, i: nat): (r: nat)
    requires i <= |p.order|
    ensures i <= r <= |p.order|
    ensures forall j | i <= j < r :: Leased(p, p.order[j])
    ensures r < |p.order| ==> !Leased(p, p.order[r])
    decreases |p.order| - i
  {
    if i == |p.order| || !Leased(p, p.order[i]) then i else FirstFree(p, i + 1)
  }

  function Acquired(p: Pool, k: nat): Pool {
    var i := FirstFree(p, 0);
    if i == |p.order| then p else p.(held := p.held[k := p.order[i]])
  }

  function IndexOf(s: seq<Connection>, c: Connection): (r: nat)
    requires c in s
    ensures r < |s| && s[r] == c
  {
    if s[0] == c then 0 else 1 + IndexOf(s[1..], c)
  }

  /** The list with the connection at `i` moved to the back. */
  function ToBack(s: seq<Connection>, i: nat): (r: seq<Connection>)
    requires i < |s|
    ensures |r| == |s|
  {
    s[..i] + s[i + 1..] + [s[i]]
  }

  function Released(p: Pool, k: nat): Pool
    requires k in p.held && p.held[k] in p.order
  {
    var c := p.held[k];
    Pool(ToBack(p.order, IndexOf(p.order, c)), p.held - {k}, p.released[c := p.clock], p.clock + 1)
  }

  /**
   The connections are distinct and in the order of their last release; every connection held is
   in the list; and no connection has two holders.
   */
  ghost predicate Inv(p: Pool) {
    && Distinct(p.order)
    && (forall i | 0 <= i < |p.order| :: p.order[i] in p.released && p.released[p.order[i]] < p.clock)
    && (forall i, j | 0 <= i < j < |p.order| :: p.released[p.order[i]] < p.released[p.order[j]])
    && (forall k | k in p.held :: p.held[k] in p.order)
    && (forall k, l | k in p.held && l in p.held && k != l :: p.held[k] != p.held[l])
  }

  /** Of the connections nobody holds the first in the list was released longest ago. */
  lemma {:induction false} FirstIsOldest(p: Pool, c: Connection)
    requires Inv(p) && c in p.order && !Leased(p, c)
    ensures var i := FirstFree(p, 0); i < |p.order| && p.released[p.order[i]] <= p.released[c]
  {
    hide Leased;
    var j :| 0 <= j < |p.order| && p.order[j] == c;
    assert j >= FirstFree(p, 0);
  }

  lemma {:induction false} AcquireKeeps(p: Pool, k: nat)
    requires Inv(p) && k !in p.held
    ensures Inv(Acquired(p, k)) && Acquired(p, k).order == p.order
  {
    var i := FirstFree(p, 0);
    if i < |p.order| {
      forall l | l in p.held ensures p.held[l] != p.order[i] {
        assert Leased(p, p.held[l]);
      }
    }
  }

  /**
   An acquisition fails exactly when all connections are held; otherwise it gets one nobody held,
   and of those the one released longest ago.
   */
  lemma {:induction false} AcquireOldest(p: Pool, k: nat)
    requires Inv(p) && k !in p.held
    ensures Inv(Acquired(p, k)) && Acquired(p, k).order == p.order
    ensures k !in Acquired(p, k).held <==> forall c | c in p.order :: Leased(p, c)
    ensures k !in Acquired(p, k).held ==> Acquired(p, k) == p
    ensures k in Acquired(p, k).held ==>
      var c := Acquired(p, k).held[k];
      Acquired(p, k).held == p.held[k := c] && c in p.order && !Leased(p, c)
      && forall d | d in p.order && !Leased(p, d) :: p.released[c] <= p.released[d]
  {
    hide Inv, Leased;
    AcquireKeeps(p, k);
    forall d | d in p.order && !Leased(p, d)
      ensures var i := FirstFree(p, 0); i < |p.order| && p.released[p.order[i]] <= p.released[d]
    {
      FirstIsOldest(p, d);
    }
    var i := FirstFree(p, 0);
    if i < |p.order| {
      assert p.order[i] in p.order;
    }
  }

  lemma {:induction false} ToBackKeeps(s: seq<Connection>, i: nat, c: Connection)
    requires i < |s|
    ensures c in ToBack(s, i) <==> c in s
  {
    assert s == s[..i] + [s[i]] + s[i + 1..];
  }

  /** A release frees that connection alone, and moves it behind all others. */
  lemma {:induction false} ReleaseLast(p: Pool, k: nat)
    requires Inv(p) && k in p.held
    ensures p.held[k] in p.order
    ensures var p' := Released(p, k);
      && Inv(p') && p'.held == p.held - {k}
      && (forall c :: c in p'.order <==> c in p.order)
      && forall c :: Leased(p', c) <==> Leased(p, c) && c != p.held[k]
  {
    var c := p.held[k];
    var i := IndexOf(p.order, c);
    var p' := Released(p, k);
    forall x ensures x in p'.order <==> x in p.order {
      ToBackKeeps(p.order, i, x);
    }
    forall x ensures Leased(p', x) <==> Leased(p, x) && x != c {
      if Leased(p, x) && x != c {
        var l :| l in p.held && p.held[l] == x;
        assert l in p'.held;
      }
    }
    ReleasedOrder(p, i);
  }

  lemma {:induction false} ReleasedOrder(p: Pool, i: nat)
    requires Inv(p) && i < |p.order|
    ensures var o := ToBack(p.order, i); var r := p.released[p.order[i] := p.clock];
      && Distinct(o)
      && (forall a | 0 <= a < |o| :: o[a] in r && r[o[a]] < p.clock + 1)
      && forall a, b | 0 <= a < b < |o| :: r[o[a]] < r[o[b]]
  {
    var o := ToBack(p.order, i);
    forall a | 0 <= a < |o| ensures o[a] == if a < i then p.order[a] else if a < |o| - 1 then p.order[a + 1] else p.order[i] {
    }
    hide ToBack;
  }

  // ------------------------------------------------------------- whole runs

  function Initial(conns: seq<Connection>): Pool {
    Pool(conns, map[], map c | c in conns :: FirstAt(conns, c), |conns|)
  }

  function FirstAt(s: seq<Connection>, c: Connection): int {
    if s == [] || s[0] == c then 0 else 1 + FirstAt(s[1..], c)
  }

  lemma {:induction false} FirstAtIs(s: seq<Connection>, i: nat)
    requires Distinct(s) && i < |s|
    ensures FirstAt(s, s[i]) == i
  {
    if i > 0 {
      assert s[1..][i - 1] == s[i];
      FirstAtIs(s[1..], i - 1);
    }
  }

  lemma {:induction false} InitialInv(conns: seq<Connection>)
    requires Distinct(conns)
    ensures Inv(Initial(conns))
  {
    forall i | 0 <= i < |conns| ensures Initial(conns).released[conns[i]] == i {
      FirstAtIs(conns, i);
    }
  }

  /** Only a client without a connection acquires, and only one with a connection releases. */
  predicate Enabled(p: Pool, op: Op) {
    match op
    case Acquire(k) => k !in p.held
    case Release(k) => k in p.held && p.held[k] in p.order
  }

  function Next(p: Pool, op: Op): Pool
    requires Enabled(p, op)
  {
    match op
    case Acquire(k) => Acquired(p, k)
    case Release(k) => Released(p, k)
  }

  predicate Possible(p: Pool, ops: seq<Op>)
    decreases ops
  {
    ops == [] || (Enabled(p, ops[0]) && Possible(Next(p, ops[0]), ops[1..]))
  }

  function Run(p: Pool, ops: seq<Op>): Pool
    requires Possible(p, ops)
    decreases ops
  {
    if ops == [] then p else Run(Next(p, ops[0]), ops[1..])
  }

  lemma {:induction false} NextKeeps(p: Pool, op: Op)
    requires Inv(p) && Enabled(p, op)
    ensures Inv(Next(p, op)) && |Next(p, op).order| == |p.order|
    ensures forall c :: c in Next(p, op).order <==> c in p.order
  {
    hide Inv;
    match op {
      case Acquire(k) => AcquireOldest(p, k);
      case Release(k) => ReleaseLast(p, k);
    }
  }

  /**
   Over every run the connections of the pool stay the same, no two clients hold one of them, and
   the list is in the order of last release.
   */
  lemma {:induction false} EveryRun(p: Pool, ops: seq<Op>)
    requires Inv(p) && Possible(p, ops)
    ensures Inv(Run(p, ops)) && |Run(p, ops).order| == |p.order|
    ensures forall c :: c in Run(p, ops).order <==> c in p.order
    decreases ops
  {
    if ops != [] {
      NextKeeps(p, ops[0]);
      hide Inv, Next, Enabled;
      EveryRun(Next(p, ops[0]), ops[1..]);
    }
  }

  // ------------------------------------------------------------- the slots

  /** A slot; the time it was last used is written but never read. */
  class Slot {
    const conn: Connection
    var lastUsed: int
    var inUse: bool

    constructor (conn: Connection, t: int, used: bool)
      ensures this.conn == conn && lastUsed == t && inUse == used
    {
      this.conn, lastUsed, inUse := conn, t, used;
    }
  }

  /** The slots stand for the pool. */
  ghost predicate Shows(slots: seq<Slot>, p: Pool)
    reads slots
  {
    && |slots| == |p.order|
    && forall i | 0 <= i < |slots| :: slots[i].conn == p.order[i] && (slots[i].inUse <==> Leased(p, p.order[i]))
  }

  class SlotPool {
    var slots: seq<Slot>
    ghost var p: Pool

    ghost predicate Valid()
      reads this, slots
    {
      Shows(slots, p) && Inv(p)
    }

    /** `init`, given the connections it opened. */
    constructor (conns: seq<Connection>, now: int)
      requires Distinct(conns)
      ensures Valid() && p == Initial(conns) && fresh(slots)
    {
      slots := [];
      p := Initial(conns);
      new;
      for i := 0 to |conns|
        invariant |slots| == i && fresh(slots) && p == Initial(conns)
        invariant forall j | 0 <= j < i :: slots[j].conn == conns[j] && !slots[j].inUse
      {
        var slot := new Slot(conns[i], now, false);
        slots := slots + [slot];
      }
      InitialInv(conns);
    }

    method FindEmptySlot() returns (found: Slot?, ghost i: nat)
      requires Valid()
      ensures i == FirstFree(p, 0) && (if i == |slots| then found == null else found == slots[i])
    {
      hide Inv;
      i := 0;
      var k := 0;
      while k < |slots|
        invariant k <= |slots| && i == k && forall j | 0 <= j < k :: Leased(p, p.order[j])
      {
        if !slots[k].inUse {
          FirstFreeIs(p, 0, k);
          return slots[k], k;
        }
        k, i := k + 1, i + 1;
      }
      FirstFreeIs(p, 0, k);
      return null, k;
    }

    /** `getConn`, for client `k`. */
    method GetConn(ghost k: nat) returns (conn: Option<Connection>)
      requires Valid() && k !in p.held
      modifies this`p, slots
      ensures Valid() && p == Acquired(old(p), k) && slots == old(slots)
      ensures conn == if k in p.held then Some(p.held[k]) else None
    {
      hide Inv, Leased, FirstFree;
      AcquireKeeps(p, k);
      ghost var p0, p' := p, Acquired(p, k);
      var slot, i := FindEmptySlot();
      if slot == null {
        return None;
      }
      TakenLeased(slots, p, k, i);
      hide Acquired;
      UseSlot(slot, i, p');
      p := p';
      conn := Some(slot.conn);
    }

    method UseSlot(slot: Slot, ghost i: nat, ghost p': Pool)
      requires Shows(slots, p) && i < |slots| && slots[i] == slot && p'.order == p.order && Distinct(p.order)
      requires forall j | 0 <= j < |slots| :: Leased(p', p.order[j]) <==> Leased(p, p.order[j]) || j == i
      modifies slot
      ensures Shows(slots, p') && slot.conn == p.order[i]
    {
      hide Leased;
      forall j | 0 <= j < |slots| && j != i ensures slots[j] != slot {
        assert slots[j].conn != slot.conn;
      }
      slot.inUse := true;
    }

    /** `rleaseConn`, for client `k`. */
    method ReleaseConn(conn: Connection, now: int, ghost k: nat)
      requires Valid() && k in p.held && p.held[k] == conn
      modifies this, slots
      ensures k in old(p.held) && old(p.held[k]) in old(p.order)
      ensures Valid() && p == Released(old(p), k)
      ensures forall s: Slot :: s in slots <==> s in old(slots)
    {
      hide Released, Leased;
      ReleaseLast(p, k);
      ghost var at := IndexOf(p.order, conn);
      ghost var p' := Released(p, k);
      var it := 0;
      while slots[it].conn != conn
        invariant it <= at
        decreases at - it
      {
        it := it + 1;
      }
      assert it == at by { assert p.order[it] == p.order[at]; }
      ReleasedLeased(slots, p, k, it);
      hide Inv;
      FreeSlot(it, now, p');
      p := p';
    }

    method FreeSlot(it: nat, now: int, ghost p': Pool)
      requires Shows(slots, p) && it < |slots| && p'.order == ToBack(p.order, it) && Distinct(p.order)
      requires forall j | 0 <= j < |slots| :: Leased(p', p.order[j]) <==> Leased(p, p.order[j]) && j != it
      modifies this`slots, slots
      ensures Shows(slots, p') && forall s: Slot :: s in slots <==> s in old(slots)
    {
      hide Leased;
      var slot := slots[it];
      forall j | 0 <= j < |slots| && j != it ensures slots[j] != slot {
        assert slots[j].conn != slot.conn;
      }
      slot.inUse := false;
      slot.lastUsed := now;
      assert slots == slots[..it] + [slot] + slots[it + 1..];
      slots := slots[..it] + slots[it + 1..] + [slot];
    }
  }

  lemma {:induction false} FirstFreeIs(p: Pool, i: nat, k: nat)
    requires i <= k <= |p.order| && (forall j | i <= j < k :: Leased(p, p.order[j]))
    requires k == |p.order| || !Leased(p, p.order[k])
    ensures FirstFree(p, i) == k
  {
  }

  /** After the first free slot is taken by client `k`. */
  lemma {:induction false} TakenLeased(slots: seq<Slot>, p: Pool, k: nat, i: nat)
    requires Shows(slots, p) && Inv(p) && k !in p.held && i == FirstFree(p, 0) < |p.order|
    ensures var p' := Acquired(p, k);
      && k in p'.held && p'.held[k] == p.order[i] && p'.order == p.order && Distinct(p.order)
      && forall j | 0 <= j < |slots| :: Leased(p', p.order[j]) <==> Leased(p, p.order[j]) || j == i
  {
    var p' := Acquired(p, k);
    forall j | 0 <= j < |slots| ensures Leased(p', p.order[j]) <==> Leased(p, p.order[j]) || j == i {
      if Leased(p, p.order[j]) {
        var l :| l in p.held && p.held[l] == p.order[j];
        assert p'.held[l] == p.order[j];
      }
      if j == i {
        assert p'.held[k] == p.order[j];
      }
    }
  }

  lemma {:induction false} ReleasedLeased(slots: seq<Slot>, p: Pool, k: nat, i: nat)
    requires Shows(slots, p) && Inv(p) && k in p.held && p.held[k] in p.order && i == IndexOf(p.order, p.held[k])
    ensures var p' := Released(p, k);
      && p'.order == ToBack(p.order, i) && Distinct(p.order)
      && forall j | 0 <= j < |slots| :: Leased(p', p.order[j]) <==> Leased(p, p.order[j]) && j != i
  {
    ReleaseLast(p, k);
  }
}
