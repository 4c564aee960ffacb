/**
 Timers whose functions add timers while a heartbeat is calling them.

 `addTimer` then rotates the list a second time, inside the rotation that is calling, and inserts
 into it. A heartbeat with such functions is proved to be the heartbeat without them, followed by
 the same additions.
 */
module TimerCallbacks {
  import opened TimerService

  datatype Addition = Addition(fun: int, tk: TimerTick)

  /** What the function of a timer adds when it is called. */
  type Script = int -> seq<Addition>

  // ------------------------------------------------------------- insertions, one after the other

  /** Where `std::lower_bound` points, on any list. */
  function Position(ts: seq<TimerTask>, tk: TimerTick): (it: nat)
    ensures it <= |ts|
  {
    if ts == [] || tk <= ts[0].time then 0 else 1 + Position(ts[1..], tk)
  }

  function With(ts: seq<TimerTask>, a: Addition): (r: seq<TimerTask>) {
    InsertAt(ts, Position(ts, a.tk), TimerTask(a.fun, a.tk))
  }

  function WithAll(ts: seq<TimerTask>, list: seq<Addition>): (r: seq<TimerTask>) {
    if list == [] then ts else With(WithAll(ts, list[..|list| - 1]), list[|list| - 1])
  }

  /** All that the functions called add, in that order. */
  function Additions(script: Script, called: seq<int>): (r: seq<Addition>) {
    if called == [] then [] else Additions(script, called[..|called| - 1]) + script(called[|called| - 1])
  }

  lemma {:induction false} LowerIsPosition(ts: seq<TimerTask>, tk: TimerTick, it: nat)
    requires Lower(ts, tk, it)
    ensures it == Position(ts, tk)
  {
    if it > 0 {
      forall i | 0 <= i < it - 1 ensures ts[1..][i].time < tk {
        assert ts[1..][i] == ts[i + 1];
      }
      LowerIsPosition(ts[1..], tk, it - 1);
    }
  }

  // ------------------------------------------------------------- the two parts of the list

  predicate Zeros(ts: seq<TimerTask>) {
    forall i | 0 <= i < |ts| :: ts[i].time == 0
  }

  predicate AllDueIn(ts: seq<TimerTask>, passed: TimerTick) {
    forall i | 0 <= i < |ts| :: ts[i].time <= passed
  }

  predicate AllAfter(ts: seq<TimerTask>, passed: TimerTick) {
    forall i | 0 <= i < |ts| :: ts[i].time > passed
  }

  function Expired(ts: seq<TimerTask>): (r: seq<TimerTask>)
    ensures |r| == |ts| && Zeros(r)
  {
    seq(|ts|, i requires 0 <= i < |ts| => ts[i].(time := 0))
  }

  function Reduced(ts: seq<TimerTask>, passed: TimerTick): (r: seq<TimerTask>)
    requires AllAfter(ts, passed)
    ensures |r| == |ts| && AllAfter(r, 0)
  {
    seq(|ts|, i requires 0 <= i < |ts| => ts[i].(time := ts[i].time - passed))
  }

  function FunsOf(ts: seq<TimerTask>): (r: seq<int>)
    ensures |r| == |ts|
  {
    seq(|ts|, i requires 0 <= i < |ts| => ts[i].fun)
  }

  /** Due timers in front are dropped or set to zero, and those behind are reduced. */
  lemma {:induction false} KeptParts(due: seq<TimerTask>, rest: seq<TimerTask>, passed: TimerTick, call: bool)
    requires AllDueIn(due, passed) && AllAfter(rest, passed)
    ensures Kept(due + rest, passed, call) == (if call then [] else Expired(due)) + Reduced(rest, passed)
    ensures Called(due + rest, passed) == FunsOf(due)
    decreases |rest|
  {
    if rest != [] {
      var n := |rest| - 1;
      var init, last := rest[..n], rest[n].(time := rest[n].time - passed);
      assert due + rest == due + init + [rest[n]];
      ReducedLast(rest, passed);
      KeptParts(due, init, passed, call);
      KeptLast(due + init, rest[n], passed, call);
      hide Kept, Called, Reduced, Expired, FunsOf, AllDueIn;
      var front := if call then [] else Expired(due);
      assert front + Reduced(init, passed) + [last] == front + (Reduced(init, passed) + [last]);
    } else if due != [] {
      KeptDue(due, passed, call);
    } else {
      assert due + rest == [];
    }
  }

  lemma ReducedLast(rest: seq<TimerTask>, passed: TimerTick)
    requires AllAfter(rest, passed) && rest != []
    ensures var n := |rest| - 1;
      AllAfter(rest[..n], passed) && Reduced(rest, passed) == Reduced(rest[..n], passed) + [rest[n].(time := rest[n].time - passed)]
  {
  }

  lemma {:induction false} KeptDue(due: seq<TimerTask>, passed: TimerTick, call: bool)
    requires AllDueIn(due, passed)
    ensures Kept(due + [], passed, call) == (if call then [] else Expired(due)) + Reduced([], passed)
    ensures Called(due + [], passed) == FunsOf(due)
  {
    assert due + [] == due && Reduced([], passed) == [];
    if due != [] {
      var n := |due| - 1;
      assert due == due[..n] + [due[n]] && due[..n] + [] == due[..n];
      KeptLast(due[..n], due[n], passed, call);
      KeptDue(due[..n], passed, call);
      assert Expired(due) == Expired(due[..n]) + [due[n].(time := 0)];
      assert FunsOf(due) == FunsOf(due[..n]) + [due[n].fun];
    }
  }

  lemma KeptLast(ts: seq<TimerTask>, last: TimerTask, passed: TimerTick, call: bool)
    ensures Kept(ts + [last], passed, call) == Kept(ts, passed, call)
      + if last.time > passed then [last.(time := last.time - passed)] else if call then [] else [last.(time := 0)]
    ensures Called(ts + [last], passed) == Called(ts, passed) + if last.time <= passed then [last.fun] else []
  {
    hide Kept, Called;
    assert (ts + [last])[..|ts|] == ts;
    KeptStep(ts + [last], |ts|, passed, call);
    assert (ts + [last])[..|ts| + 1] == ts + [last];
  }

  lemma {:induction false} PositionBehind(front: seq<TimerTask>, ts: seq<TimerTask>, tk: TimerTick)
    requires Zeros(front) && tk > 0
    ensures Position(front + ts, tk) == |front| + Position(ts, tk)
  {
    if front == [] {
      assert front + ts == ts;
    } else {
      assert (front + ts)[1..] == front[1..] + ts;
      PositionBehind(front[1..], ts, tk);
    }
  }

  /** A timer of no ticks goes to the very front, any other behind everything expired. */
  lemma {:induction false} WithBehind(front: seq<TimerTask>, ts: seq<TimerTask>, a: Addition)
    requires Zeros(front)
    ensures a.tk == 0 ==> With(front + ts, a) == [TimerTask(a.fun, 0)] + front + ts && Position(front + ts, 0) == 0
    ensures a.tk > 0 ==> With(front + ts, a) == front + With(ts, a) && Position(front + ts, a.tk) >= |front|
  {
    if a.tk == 0 {
      assert (front + ts)[..0] == [] && (front + ts)[0..] == front + ts;
    } else {
      PositionBehind(front, ts, a.tk);
      var k := Position(ts, a.tk);
      assert (front + ts)[..|front| + k] == front + ts[..k] && (front + ts)[|front| + k..] == ts[k..];
    }
  }

  lemma {:induction false} WithSorted(ts: seq<TimerTask>, a: Addition)
    requires Sorted(ts) && AllAfter(ts, 0) && a.tk > 0
    ensures Sorted(With(ts, a)) && AllAfter(With(ts, a), 0)
  {
    PositionLower(ts, a.tk);
    InsertedSorted(ts, Position(ts, a.tk), TimerTask(a.fun, a.tk));
  }

  lemma {:induction false} PositionLower(ts: seq<TimerTask>, tk: TimerTick)
    requires Sorted(ts)
    ensures Lower(ts, tk, Position(ts, tk))
  {
    if ts != [] && ts[0].time < tk {
      assert Sorted(ts[1..]);
      PositionLower(ts[1..], tk);
      assert forall i | 0 < i < |ts| :: ts[i] == ts[1..][i - 1];
    }
  }

  lemma ZerosFirst(front: seq<TimerTask>, ts: seq<TimerTask>)
    requires Zeros(front) && Sorted(ts)
    ensures Sorted(front + ts)
  {
  }

  // ------------------------------------------------------------- the middle of a heartbeat

  /**
   The list with the due timers `due` still to be called and the iterator at the first of them:
   as the heartbeat found it, while nothing was added; or brought up to date by the first
   addition, with the new timers of no ticks in front and all others behind.  Without the due
   timers it is the list the additions make of `kept`.
   */
  ghost predicate Midway(due: seq<TimerTask>, rest: seq<TimerTask>, p: TimerTick, list: seq<Addition>,
                         timers: seq<TimerTask>, passed: TimerTick, it: nat, z: seq<TimerTask>, w: seq<TimerTask>)
  {
    && p > 0 && AllDueIn(due, p) && AllAfter(rest, p) && Sorted(rest) && it == |z|
    && if passed == 0 then
         && Zeros(z) && AllAfter(w, 0) && Sorted(w) && timers == z + Expired(due) + w
         && z + w == WithAll(Reduced(rest, p), list)
       else
         passed == p && list == [] && z == [] && w == rest && timers == due + rest
  }

  /** The list brought up to date, as `addTimer` does before it inserts. */
  function Settled0(timers: seq<TimerTask>, passed: TimerTick): (r: seq<TimerTask>) {
    if passed == 0 then timers else Kept(timers, passed, false)
  }

  lemma {:induction false} ReducedSorted(rest: seq<TimerTask>, p: TimerTick)
    requires AllAfter(rest, p) && Sorted(rest)
    ensures Sorted(Reduced(rest, p))
  {
  }

  lemma {:induction false} MidwaySettled(due: seq<TimerTask>, rest: seq<TimerTask>, p: TimerTick, list: seq<Addition>,
                                         timers: seq<TimerTask>, passed: TimerTick, it: nat, z: seq<TimerTask>, w: seq<TimerTask>)
    returns (w': seq<TimerTask>)
    requires Midway(due, rest, p, list, timers, passed, it, z, w)
    ensures Midway(due, rest, p, list, Settled0(timers, passed), 0, it, z, w')
    ensures Sorted(Settled0(timers, passed)) && Settled0(timers, passed) == z + Expired(due) + w'
  {
    if passed == 0 {
      w' := w;
    } else {
      w' := Reduced(rest, p);
      hide Midway;
      FirstSettled(due, rest, p, timers);
    }
    SettledSorted(due, rest, p, list, Settled0(timers, passed), it, z, w');
  }

  lemma {:induction false} SettledSorted(due: seq<TimerTask>, rest: seq<TimerTask>, p: TimerTick, list: seq<Addition>,
                                         timers: seq<TimerTask>, it: nat, z: seq<TimerTask>, w: seq<TimerTask>)
    requires Midway(due, rest, p, list, timers, 0, it, z, w)
    ensures Sorted(timers) && timers == z + Expired(due) + w
  {
    hide Expired, WithAll, Sorted, AllAfter, AllDueIn;
    ZerosFirst(z + Expired(due), w);
  }

  lemma WithNone(ts: seq<TimerTask>)
    ensures WithAll(ts, []) == ts
  {
  }

  lemma {:induction false} FirstSettled(due: seq<TimerTask>, rest: seq<TimerTask>, p: TimerTick, timers: seq<TimerTask>)
    requires p > 0 && AllDueIn(due, p) && AllAfter(rest, p) && Sorted(rest) && timers == due + rest
    ensures Midway(due, rest, p, [], Kept(timers, p, false), 0, 0, [], Reduced(rest, p))
  {
    hide Reduced, Expired, Kept, Called, Sorted, AllDueIn, AllAfter, WithAll, FunsOf, Midway;
    var w := Reduced(rest, p);
    ReducedSorted(rest, p);
    KeptParts(due, rest, p, false);
    UpToDate(due, rest, p, w);
  }

  lemma UpToDate(due: seq<TimerTask>, rest: seq<TimerTask>, p: TimerTick, w: seq<TimerTask>)
    requires p > 0 && AllDueIn(due, p) && AllAfter(rest, p) && Sorted(rest) && w == Reduced(rest, p) && Sorted(w)
    ensures Midway(due, rest, p, [], Expired(due) + w, 0, 0, [], w)
  {
    hide Reduced, Expired, Sorted, AllDueIn, WithAll;
    WithNone(w);
    assert [] + Expired(due) + w == Expired(due) + w && [] + w == w;
  }

  /** One addition from within a call; the iterator stays at its timer. */
  lemma {:induction false} MidwayAdded(due: seq<TimerTask>, rest: seq<TimerTask>, p: TimerTick, list: seq<Addition>,
                                       timers: seq<TimerTask>, it: nat, z: seq<TimerTask>, w: seq<TimerTask>, a: Addition)
    returns (z': seq<TimerTask>, w': seq<TimerTask>)
    requires Midway(due, rest, p, list, timers, 0, it, z, w) && due != []
    ensures Midway(due, rest, p, list + [a], With(timers, a), 0, if Position(timers, a.tk) <= it then it + 1 else it, z', w')
  {
    hide With, Position, Expired, Reduced;
    var e := Expired(due);
    assert (list + [a])[..|list|] == list && (list + [a])[|list|] == a;
    WithBehind(z + e, w, a);
    WithBehind(z, w, a);
    if a.tk == 0 {
      z', w' := [TimerTask(a.fun, 0)] + z, w;
      assert [TimerTask(a.fun, 0)] + (z + e) + w == z' + e + w;
    } else {
      z', w' := z, With(w, a);
      WithSorted(w, a);
    }
  }

  /** The timer called is erased. */
  lemma {:induction false} MidwayErased(due: seq<TimerTask>, rest: seq<TimerTask>, p: TimerTick, list: seq<Addition>,
                                        timers: seq<TimerTask>, passed: TimerTick, it: nat, z: seq<TimerTask>, w: seq<TimerTask>)
    requires Midway(due, rest, p, list, timers, passed, it, z, w) && due != []
    ensures it < |timers| && Midway(due[1..], rest, p, list, timers[..it] + timers[it + 1..], passed, it, z, w)
  {
    hide Reduced, WithAll;
    assert due == [due[0]] + due[1..];
    assert Expired(due) == [due[0].(time := 0)] + Expired(due[1..]);
    hide Expired;
    if passed == 0 {
      var x, back := due[0].(time := 0), Expired(due[1..]) + w;
      assert timers == z + [x] + back;
      Middle(z, x, back, x);
      assert z + back == z + Expired(due[1..]) + w;
    } else {
      assert timers == [due[0]] + (due[1..] + rest);
    }
  }

  /** The timer at the iterator is due, is set to zero, and is then called. */
  lemma {:induction false} MidwayCalls(due: seq<TimerTask>, rest: seq<TimerTask>, p: TimerTick, list: seq<Addition>,
                                       timers: seq<TimerTask>, passed: TimerTick, it: nat, z: seq<TimerTask>, w: seq<TimerTask>)
    requires Midway(due, rest, p, list, timers, passed, it, z, w) && due != []
    ensures it < |timers| && timers[it].time <= passed && timers[it].fun == due[0].fun
    ensures Midway([due[0].(time := 0)] + due[1..], rest, p, list, timers[it := timers[it].(time := 0)], passed, it, z, w)
  {
    hide Reduced, WithAll;
    var due' := [due[0].(time := 0)] + due[1..];
    assert Expired(due') == Expired(due);
    assert Expired(due)[0] == due[0].(time := 0);
    hide Expired;
    if passed == 0 {
      assert timers[it] == Expired(due)[0];
      assert timers[it := timers[it].(time := 0)] == timers;
    } else {
      assert timers[0] == due[0] && timers[0 := due'[0]] == due' + rest;
    }
  }

  /** Once every due timer was called, the others are reduced by what is left to reduce. */
  lemma {:induction false} MidwayEnds(rest: seq<TimerTask>, p: TimerTick, list: seq<Addition>,
                                      timers: seq<TimerTask>, passed: TimerTick, it: nat, z: seq<TimerTask>, w: seq<TimerTask>)
    requires Midway([], rest, p, list, timers, passed, it, z, w)
    ensures it <= |timers| && AllAfter(timers[it..], passed) && (it < |timers| ==> timers[it].time > passed)
    ensures timers[..it] + Reduced(timers[it..], passed) == WithAll(Reduced(rest, p), list)
  {
    assert Expired([]) == [] && z + [] + w == z + w && [] + rest == rest;
    assert timers == z + w && timers[it..] == w && timers[..it] == z;
    assert it < |timers| ==> timers[it] == w[0];
    if passed == 0 {
      assert Reduced(w, 0) == w;
    }
  }

  // ------------------------------------------------------------- the loop

  /** `addTimer`, wherever it is called from. */
  method AddFromCall(q: TimerQueue, a: Addition) returns (at: nat)
    requires Sorted(Settled0(q.timers, q.timePassed))
    modifies q`timers, q`timePassed
    ensures q.timePassed == 0 && q.timers == With(Settled0(old(q.timers), old(q.timePassed)), a)
    ensures at == Position(Settled0(old(q.timers), old(q.timePassed)), a.tk)
  {
    if q.timePassed != 0 {
      var called := q.TimerRotation(false);
      q.timePassed := 0;
    }
    at := q.LowerBound(a.tk);
    LowerIsPosition(q.timers, a.tk, at);
    q.timers := InsertAt(q.timers, at, TimerTask(a.fun, a.tk));
  }

  /** The call of one function: its additions, one by one, with the iterator at the timer called. */
  method CallFunction(q: TimerQueue, adds: seq<Addition>, it0: nat, ghost due: seq<TimerTask>, ghost rest: seq<TimerTask>, ghost p: TimerTick,
                      ghost list0: seq<Addition>, ghost z0: seq<TimerTask>, ghost w0: seq<TimerTask>)
    returns (it: nat, ghost z: seq<TimerTask>, ghost w: seq<TimerTask>)
    requires due != [] && Midway(due, rest, p, list0, q.timers, q.timePassed, it0, z0, w0)
    modifies q`timers, q`timePassed
    ensures Midway(due, rest, p, list0 + adds, q.timers, q.timePassed, it, z, w)
  {
    hide Midway, With, Settled0;
    it, z, w := it0, z0, w0;
    var i := 0;
    assert list0 + adds[..0] == list0;
    while i < |adds|
      invariant i <= |adds| && Midway(due, rest, p, list0 + adds[..i], q.timers, q.timePassed, it, z, w)
    {
      ghost var list := list0 + adds[..i];
      assert list + [adds[i]] == list0 + adds[..i + 1];
      w := MidwaySettled(due, rest, p, list, q.timers, q.timePassed, it, z, w);
      z, w := MidwayAdded(due, rest, p, list, Settled0(q.timers, q.timePassed), it, z, w, adds[i]);
      var at := AddFromCall(q, adds[i]);
      it := if at <= it then it + 1 else it;
      i := i + 1;
    }
    assert adds[..|adds|] == adds;
  }

  /** `timerRotation(true)` with functions that add timers: the due ones first, then the others. */
  method RotationCalling(q: TimerQueue, script: Script, ghost due: seq<TimerTask>, ghost rest: seq<TimerTask>) returns (called: seq<int>)
    requires q.timePassed > 0 && AllDueIn(due, q.timePassed) && AllAfter(rest, q.timePassed) && Sorted(rest)
    requires q.timers == due + rest
    modifies q`timers, q`timePassed
    ensures called == FunsOf(due)
    ensures q.timers == WithAll(Reduced(rest, old(q.timePassed)), Additions(script, called))
  {
    hide FunsOf, WithAll, Reduced;
    called := [];
    var it := 0;
    ghost var p, k, z, w := q.timePassed, 0, [], rest;
    assert due[0..] == due && FunsOf(due[..0]) == [];
    assert Midway(due, rest, p, Additions(script, []), q.timers, q.timePassed, it, z, w);
    hide Midway, Additions;
    while it < |q.timers| && q.timers[it].time <= q.timePassed
      invariant k <= |due| && Midway(due[k..], rest, p, Additions(script, called), q.timers, q.timePassed, it, z, w)
      invariant called == FunsOf(due[..k]) && AllAfter(rest, p)
      decreases |due| - k
    {
      if k == |due| {
        MidwayEnds(rest, p, Additions(script, called), q.timers, q.timePassed, it, z, w);
        assert false;
      }
      ghost var left, list := due[k..], Additions(script, called);
      MidwayCalls(left, rest, p, list, q.timers, q.timePassed, it, z, w);
      var fun := q.timers[it].fun;
      q.timers := q.timers[it := q.timers[it].(time := 0)];
      ghost var left' := [left[0].(time := 0)] + left[1..];
      it, z, w := CallFunction(q, script(fun), it, left', rest, p, list, z, w);
      CalledOneMore(script, due, k, called);
      MidwayErased(left', rest, p, list + script(fun), q.timers, q.timePassed, it, z, w);
      assert left'[1..] == due[k + 1..];
      called := called + [fun];
      q.timers := q.timers[..it] + q.timers[it + 1..];
      k := k + 1;
    }
    if k < |due| {
      MidwayCalls(due[k..], rest, p, Additions(script, called), q.timers, q.timePassed, it, z, w);
      assert false;
    }
    assert due[..k] == due && due[k..] == [];
    MidwayEnds(rest, p, Additions(script, called), q.timers, q.timePassed, it, z, w);
    ReduceRest(q, it);
  }

  lemma {:induction false} CalledOneMore(script: Script, due: seq<TimerTask>, k: nat, called: seq<int>)
    requires k < |due| && called == FunsOf(due[..k])
    ensures called + [due[k].fun] == FunsOf(due[..k + 1])
    ensures Additions(script, called + [due[k].fun]) == Additions(script, called) + script(due[k].fun)
  {
    assert (called + [due[k].fun])[..|called|] == called;
  }

  /** The rest of the loop: nothing is due any more. */
  method ReduceRest(q: TimerQueue, from: nat)
    requires from <= |q.timers| && AllAfter(q.timers[from..], q.timePassed)
    modifies q`timers
    ensures q.timers == old(q.timers[..from]) + Reduced(old(q.timers[from..]), q.timePassed)
  {
    ghost var ts := q.timers;
    var it := from;
    while it < |q.timers|
      invariant from <= it <= |ts| == |q.timers| && (forall i | 0 <= i < from || it <= i < |ts| :: q.timers[i] == ts[i])
      invariant forall i | from <= i < it :: ts[from..][i - from] == ts[i] && q.timers[i] == ts[i].(time := ts[i].time - q.timePassed)
    {
      assert ts[from..][it - from] == ts[it];
      q.timers := q.timers[it := q.timers[it].(time := q.timers[it].time - q.timePassed)];
      it := it + 1;
    }
    assert forall i | 0 <= i < |ts| - from :: ts[from..][i] == ts[from + i];
  }

  // ------------------------------------------------------------- the heartbeat

  /** The entries after the additions, one by one, each where its timer goes in. */
  function EntriesAll(ts: seq<TimerTask>, es: seq<Entry>, list: seq<Addition>, now: int, added: nat): (r: seq<Entry>) {
    if list == [] then es
    else
      var init, a := list[..|list| - 1], list[|list| - 1];
      var before, at := EntriesAll(ts, es, init, now, added), Position(WithAll(ts, init), a.tk);
      if at <= |before| then InsertAt(before, at, Entry(a.fun, now + a.tk, added + |init|)) else before
  }

  lemma GoodList(ts: seq<TimerTask>, passed: int, now: int, es: seq<Entry>, added: nat)
    requires Good(ts, passed, now, es, added)
    ensures Sorted(ts) && Ordered(es) && |ts| == |es|
  {
    hide Sorted, Ordered;
  }

  lemma {:induction false} AllGood(ts: seq<TimerTask>, now: int, es: seq<Entry>, added: nat, list: seq<Addition>)
    requires Good(ts, 0, now, es, added)
    ensures Good(WithAll(ts, list), 0, now, EntriesAll(ts, es, list, now, added), added + |list|)
  {
    hide Good, Sorted, Lower, InsertAt, Position;
    if list != [] {
      var n := |list| - 1;
      AllGood(ts, now, es, added, list[..n]);
      var ts', es', a := WithAll(ts, list[..n]), EntriesAll(ts, es, list[..n], now, added), list[n];
      GoodList(ts', 0, now, es', added + n);
      PositionLower(ts', a.tk);
      AddGood(ts', now, es', added + n, Position(ts', a.tk), a.fun, a.tk);
    }
  }

  /** What the owners see of the additions. */
  function StepAll(s: Ideal, list: seq<Addition>): (r: Ideal) {
    if list == [] then s else Step(StepAll(s, list[..|list| - 1]), Add(list[|list| - 1].fun, list[|list| - 1].tk))
  }

  lemma {:induction false} AllHold(s: Ideal, ts: seq<TimerTask>, now: int, es: seq<Entry>, added: nat, list: seq<Addition>)
    requires Holds(s, 0, now, es, added) && Good(ts, 0, now, es, added)
    ensures Holds(StepAll(s, list), 0, now, EntriesAll(ts, es, list, now, added), added + |list|)
  {
    hide Good, Holds, Step, Sorted, Ordered, InsertAt, Position;
    if list != [] {
      var n := |list| - 1;
      AllHold(s, ts, now, es, added, list[..n]);
      AllGood(ts, now, es, added, list[..n]);
      var ts', es', a := WithAll(ts, list[..n]), EntriesAll(ts, es, list[..n], now, added), list[n];
      GoodList(ts', 0, now, es', added + n);
      AddHolds(StepAll(s, list[..n]), 0, now, es', added + n, Position(ts', a.tk), a.fun, a.tk);
    }
  }

  /** A sorted list is the due timers and then the others. */
  lemma {:induction false} SplitSorted(ts: seq<TimerTask>, p: TimerTick) returns (k: nat)
    requires Sorted(ts)
    ensures k <= |ts| && AllDueIn(ts[..k], p) && AllAfter(ts[k..], p) && Sorted(ts[k..])
  {
    if ts == [] || ts[0].time > p {
      k := 0;
    } else {
      assert Sorted(ts[1..]);
      var j := SplitSorted(ts[1..], p);
      k := j + 1;
      assert ts[..k] == [ts[0]] + ts[1..][..j] && ts[k..] == ts[1..][j..];
    }
  }

  /** The list after the due timers were called, and what they added. */
  ghost predicate Rung(ts: seq<TimerTask>, p: TimerTick, script: Script, called: seq<int>, ts': seq<TimerTask>) {
    called == Called(ts, p) && ts' == WithAll(Kept(ts, p, true), Additions(script, called))
  }

  method RotationOf(q: TimerQueue, script: Script) returns (called: seq<int>)
    requires Sorted(q.timers) && q.timePassed > 0
    modifies q`timers, q`timePassed
    ensures Rung(old(q.timers), old(q.timePassed), script, called, q.timers)
  {
    hide Kept, Called, Additions, WithAll, Sorted, AllDueIn, AllAfter, FunsOf, Reduced;
    ghost var ts, p := q.timers, q.timePassed;
    ghost var k := SplitSorted(ts, p);
    assert ts == ts[..k] + ts[k..];
    KeptParts(ts[..k], ts[k..], p, true);
    assert [] + Reduced(ts[k..], p) == Reduced(ts[k..], p);
    called := RotationCalling(q, script, ts[..k], ts[k..]);
  }

  lemma Quietly(script: Script, ts: seq<TimerTask>)
    ensures Additions(script, []) == [] && WithAll(ts, []) == ts
    ensures forall es: seq<Entry>, now, added: nat :: EntriesAll(ts, es, [], now, added) == es
  {
  }

  lemma NoTimers(passed: int, now: int, added: nat, diff: TimerTick)
    requires Good([], passed, now, [], added)
    ensures Good([], passed, now + diff, [], added) && Beat(passed, [], now + diff, diff, [], [], passed)
  {
  }

  /**
   A heartbeat whose calls add timers: it calls what `Beat` says, and leaves what `Beat` leaves with
   the additions made afterwards, in the order of the calls.
   */
  method HeartbeatCalling(q: TimerQueue, diff: TimerTick, script: Script) returns (called: seq<int>, ghost kept: seq<TimerTask>, ghost es: seq<Entry>)
    requires q.Valid()
    modifies q
    ensures q.Valid() && q.now == old(q.now) + diff
    ensures Beat(old(q.timePassed), old(q.entries), q.now, diff, called, es, q.timePassed)
    ensures Good(kept, q.timePassed, q.now, es, old(q.added)) && (called != [] ==> q.timePassed == 0)
    ensures q.timers == WithAll(kept, Additions(script, called)) && q.added == old(q.added) + |Additions(script, called)|
    ensures q.entries == EntriesAll(kept, es, Additions(script, called), q.now, old(q.added))
  {
    hide Good, Beat, Kept, Called, Due, Waiting, Later, Funs, Sorted, Ordered, Additions, WithAll, EntriesAll;
    ghost var ts, passed, es0 := q.timers, q.timePassed, q.entries;
    GoodList(ts, passed, q.now, es0, q.added);
    called := [];
    Quietly(script, ts);
    if q.timers == [] {
      NoTimers(passed, q.now, q.added, diff);
      q.now := q.now + diff;
      kept, es := q.timers, q.entries;
      return;
    }
    q.now := q.now + diff;
    q.timePassed := AddTicks(q.timePassed, diff);
    if q.timePassed < q.timers[0].time {
      QuietBeat(ts, passed, old(q.now), es0, q.added, diff);
      q.entries := if passed + diff >= WRAP then Later(es0, WRAP) else es0;
      kept, es := q.timers, q.entries;
      return;
    }
    RingBeat(ts, passed, old(q.now), es0, q.added, diff);
    kept, es := if q.timePassed == 0 then ts else Kept(ts, q.timePassed, true), if q.timePassed == 0 then es0 else Waiting(es0, q.now);
    if q.timePassed != 0 {
      called := RotationOf(q, script);
      q.timePassed := 0;
    }
    ghost var list := Additions(script, called);
    AllGood(kept, q.now, es, q.added, list);
    q.entries := EntriesAll(kept, es, list, q.now, q.added);
    q.added := q.added + |list|;
  }

  /**
   Seen by the owners, a punctual heartbeat whose calls add timers is that heartbeat and then those
   additions: it calls the timers due, none of those just added, and misses none.
   */
  method BeatThenAdd(q: TimerQueue, diff: TimerTick, script: Script, ghost s: Ideal) returns (called: seq<int>, ghost fired: seq<Entry>)
    requires q.Valid() && Holds(s, q.timePassed, q.now, q.entries, q.added) && Punctual(s, Wait(diff))
    modifies q
    ensures q.Valid() && Fires(s, Wait(diff), fired) && called == Funs(fired)
    ensures Holds(StepAll(Step(s, Wait(diff)), Additions(script, called)), q.timePassed, q.now, q.entries, q.added)
  {
    hide Good, Holds, Punctual, Step, Beat, Ordered, Sorted, Due, Additions, EntriesAll, StepAll, WithAll, Fires, Funs;
    ghost var passed, now, es0, added := q.timePassed, q.now, q.entries, q.added;
    GoodList(q.timers, passed, now, es0, added);
    ghost var kept, es;
    called, kept, es := HeartbeatCalling(q, diff, script);
    fired := Due(es0, now + diff);
    WaitHolds(s, passed, now, es0, added, diff, called, es, q.timePassed);
    if called == [] {
      NoAdditions(script, Step(s, Wait(diff)), kept, es, q.now, added);
    } else {
      AllHold(Step(s, Wait(diff)), kept, q.now, es, added, Additions(script, called));
    }
  }

  lemma NoAdditions(script: Script, s: Ideal, ts: seq<TimerTask>, es: seq<Entry>, now: int, added: nat)
    ensures Additions(script, []) == [] && StepAll(s, []) == s && EntriesAll(ts, es, [], now, added) == es
  {
  }
}
