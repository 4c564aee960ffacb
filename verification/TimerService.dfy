/**
 The timers of the game world: a list sorted by remaining time, all of it relative to the time
 that has passed since the list was last brought up to date.

 Ghost state keeps for every timer its absolute deadline and the order in which it was added,
 and a clock that adds up all heartbeats.
 */
module TimerService {

  const WRAP := 0x1_0000_0000

  type TimerTick = t: int | 0 <= t < 0x1_0000_0000

  datatype TimerTask = TimerTask(fun: int, time: TimerTick)

  /** A timer as its owner sees it. */
  datatype Entry = Entry(fun: int, deadline: int, serial: nat)

  // ------------------------------------------------------------- the list

  predicate Sorted(ts: seq<TimerTask>) {
    forall i, j | 0 <= i < j < |ts| :: ts[i].time <= ts[j].time
  }

  /** The earlier deadline first, and of equal deadlines the timer added last. */
  predicate Precedes(a: Entry, b: Entry) {
    a.deadline < b.deadline || (a.deadline == b.deadline && a.serial > b.serial)
  }

  predicate Ordered(es: seq<Entry>) {
    forall i, j | 0 <= i < j < |es| :: Precedes(es[i], es[j])
  }

  /** Each timer has as long to go as its deadline is away. */
  predicate Tells(ts: seq<TimerTask>, passed: int, now: int, es: seq<Entry>) {
    |ts| == |es| && forall i | 0 <= i < |ts| :: ts[i].fun == es[i].fun && ts[i].time - passed == es[i].deadline - now
  }

  /** What `timerRotation` leaves of a list, and what it calls. */
  function Kept(ts: seq<TimerTask>, passed: TimerTick, call: bool): (r: seq<TimerTask>) {
    if ts == [] then []
    else
      var init, last := Kept(ts[..|ts| - 1], passed, call), ts[|ts| - 1];
      if last.time > passed then init + [last.(time := last.time - passed)]
      else if call then init
      else init + [last.(time := 0)]
  }

  function Called(ts: seq<TimerTask>, passed: TimerTick): (r: seq<int>) {
    if ts == [] then []
    else Called(ts[..|ts| - 1], passed) + if ts[|ts| - 1].time <= passed then [ts[|ts| - 1].fun] else []
  }

  /** The deadlines not after `now`, and those after it, in the order of the list. */
  function Due(es: seq<Entry>, now: int): (r: seq<Entry>) {
    if es == [] then []
    else Due(es[..|es| - 1], now) + if es[|es| - 1].deadline <= now then [es[|es| - 1]] else []
  }

  function Waiting(es: seq<Entry>, now: int): (r: seq<Entry>) {
    if es == [] then []
    else Waiting(es[..|es| - 1], now) + if es[|es| - 1].deadline > now then [es[|es| - 1]] else []
  }

  function Funs(es: seq<Entry>): (r: seq<int>)
    ensures |r| == |es|
  {
    seq(|es|, i requires 0 <= i < |es| => es[i].fun)
  }

  function Later(es: seq<Entry>, delay: int): (r: seq<Entry>)
    ensures |r| == |es|
  {
    seq(|es|, i requires 0 <= i < |es| => es[i].(deadline := es[i].deadline + delay))
  }

  /** On a list that tells the deadlines, rotation calls the due timers and keeps the others, told from now on. */
  lemma {:induction false} RotationTells(ts: seq<TimerTask>, passed: TimerTick, now: int, es: seq<Entry>)
    requires Tells(ts, passed, now, es)
    ensures Tells(Kept(ts, passed, true), 0, now, Waiting(es, now))
  {
    if ts != [] {
      var n := |ts| - 1;
      RotationTells(ts[..n], passed, now, es[..n]);
    }
  }

  lemma {:induction false} RotationCalls(ts: seq<TimerTask>, passed: TimerTick, now: int, es: seq<Entry>)
    requires Tells(ts, passed, now, es)
    ensures Called(ts, passed) == Funs(Due(es, now))
  {
    if ts != [] {
      var n := |ts| - 1;
      RotationCalls(ts[..n], passed, now, es[..n]);
      FunsAppend(Due(es[..n], now), if es[n].deadline <= now then [es[n]] else []);
    }
  }

  lemma FunsAppend(a: seq<Entry>, b: seq<Entry>)
    ensures Funs(a + b) == Funs(a) + Funs(b)
  {
  }

  /** A rotation that meets no expired timer only shifts the list. */
  lemma {:induction false} RotationShifts(ts: seq<TimerTask>, passed: TimerTick)
    requires forall i | 0 <= i < |ts| :: ts[i].time > passed
    ensures var r := Kept(ts, passed, false);
      |r| == |ts| && forall i | 0 <= i < |ts| :: r[i] == ts[i].(time := ts[i].time - passed)
  {
    if ts != [] {
      RotationShifts(ts[..|ts| - 1], passed);
    }
  }

  lemma {:induction false} SplitByDeadline(es: seq<Entry>, now: int)
    ensures forall e :: e in Due(es, now) <==> e in es && e.deadline <= now
    ensures forall e :: e in Waiting(es, now) <==> e in es && e.deadline > now
  {
    if es != [] {
      SplitByDeadline(es[..|es| - 1], now);
      assert es == es[..|es| - 1] + [es[|es| - 1]];
    }
  }

  /** The last timer of a list, due or waiting. */
  lemma DueLast(es: seq<Entry>, now: int)
    requires es != []
    ensures var n := |es| - 1;
      && es == es[..n] + [es[n]]
      && Due(es, now) == Due(es[..n], now) + (if es[n].deadline <= now then [es[n]] else [])
      && Waiting(es, now) == Waiting(es[..n], now) + (if es[n].deadline > now then [es[n]] else [])
  {
  }

  lemma DueNone(now: int)
    ensures Due([], now) == [] && Waiting([], now) == []
  {
  }

  lemma {:induction false} NothingDue(es: seq<Entry>, now: int)
    requires forall i | 0 <= i < |es| :: es[i].deadline > now
    ensures Due(es, now) == [] && Waiting(es, now) == es
  {
    hide Due, Waiting;
    if es == [] {
      DueNone(now);
    } else {
      DueLast(es, now);
      NothingDue(es[..|es| - 1], now);
    }
  }

  lemma {:induction false} AllDue(es: seq<Entry>, now: int)
    requires forall i | 0 <= i < |es| :: es[i].deadline <= now
    ensures Due(es, now) == es && Waiting(es, now) == []
  {
    hide Due, Waiting;
    if es == [] {
      DueNone(now);
    } else {
      DueLast(es, now);
      AllDue(es[..|es| - 1], now);
    }
  }

  lemma FrontOrdered(es: seq<Entry>, k: nat)
    requires Ordered(es) && k <= |es|
    ensures Ordered(es[..k])
  {
  }

  /** In an ordered list the due timers are a front part. */
  lemma {:induction false} DueIsFront(es: seq<Entry>, now: int)
    requires Ordered(es)
    ensures es == Due(es, now) + Waiting(es, now)
  {
    hide Due, Waiting, Ordered;
    if es == [] {
      DueNone(now);
    } else {
      var n := |es| - 1;
      DueLast(es, now);
      if es[n].deadline <= now {
        LastDue(es, now);
        AllDue(es, now);
      } else {
        FrontOrdered(es, n);
        DueIsFront(es[..n], now);
        var due, waiting := Due(es[..n], now), Waiting(es[..n], now);
        assert due + waiting + [es[n]] == due + (waiting + [es[n]]);
      }
    }
  }

  lemma LastDue(es: seq<Entry>, now: int)
    requires Ordered(es) && es != [] && es[|es| - 1].deadline <= now
    ensures forall i | 0 <= i < |es| :: es[i].deadline <= now
  {
    forall i | 0 <= i < |es| ensures es[i].deadline <= now {
      assert i == |es| - 1 || Precedes(es[i], es[|es| - 1]);
    }
  }

  lemma {:induction false} WaitingKept(es: seq<Entry>, now: int)
    requires Ordered(es)
    ensures Ordered(Waiting(es, now))
  {
    DueIsFront(es, now);
    var k := |Due(es, now)|;
    forall i, j | 0 <= i < j < |Waiting(es, now)| ensures Precedes(Waiting(es, now)[i], Waiting(es, now)[j]) {
      assert Waiting(es, now)[i] == es[k + i] && Waiting(es, now)[j] == es[k + j];
    }
  }

  // ------------------------------------------------------------- the invariant

  /** The list is sorted and tells the deadlines, and no time is pending that would make a timer due. */
  predicate Good(ts: seq<TimerTask>, passed: int, now: int, es: seq<Entry>, added: nat) {
    && Sorted(ts) && Tells(ts, passed, now, es) && Ordered(es)
    && (forall i | 0 <= i < |es| :: es[i].serial < added)
    && (if ts == [] then passed == 0 else passed == 0 || ts[0].time > passed)
  }

  lemma {:induction false} SettleGood(ts: seq<TimerTask>, passed: TimerTick, now: int, es: seq<Entry>, added: nat)
    requires Good(ts, passed, now, es, added) && passed != 0
    ensures Good(Kept(ts, passed, false), 0, now, es, added)
  {
    RotationShifts(ts, passed);
  }

  function InsertAt<T>(s: seq<T>, it: nat, x: T): (r: seq<T>)
    requires it <= |s|
  {
    s[..it] + [x] + s[it..]
  }

  /** Where `std::lower_bound` points. */
  predicate Lower(ts: seq<TimerTask>, time: TimerTick, it: nat) {
    it <= |ts| && (forall i | 0 <= i < it :: ts[i].time < time) && forall i | it <= i < |ts| :: time <= ts[i].time
  }

  lemma {:induction false} InsertedOrdered(es: seq<Entry>, it: nat, e: Entry, added: nat)
    requires Ordered(es) && it <= |es| && e.serial == added && forall i | 0 <= i < |es| :: es[i].serial < added
    requires forall i | 0 <= i < it :: es[i].deadline < e.deadline
    requires forall i | it <= i < |es| :: e.deadline <= es[i].deadline
    ensures Ordered(InsertAt(es, it, e)) && forall i | 0 <= i < |InsertAt(es, it, e)| :: InsertAt(es, it, e)[i].serial < added + 1
  {
  }

  lemma InsertedSorted(ts: seq<TimerTask>, it: nat, task: TimerTask)
    requires Sorted(ts) && Lower(ts, task.time, it)
    ensures Sorted(InsertAt(ts, it, task))
  {
  }

  lemma InsertedTells(ts: seq<TimerTask>, now: int, es: seq<Entry>, it: nat, task: TimerTask, e: Entry)
    requires Tells(ts, 0, now, es) && it <= |ts| && task.fun == e.fun && task.time == e.deadline - now
    ensures Tells(InsertAt(ts, it, task), 0, now, InsertAt(es, it, e))
  {
  }

  lemma {:induction false} AddGood(ts: seq<TimerTask>, now: int, es: seq<Entry>, added: nat, it: nat, fun: int, tk: TimerTick)
    requires Good(ts, 0, now, es, added) && Lower(ts, tk, it)
    ensures it <= |ts| && it <= |es|
    ensures Good(InsertAt(ts, it, TimerTask(fun, tk)), 0, now, InsertAt(es, it, Entry(fun, now + tk, added)), added + 1)
  {
    hide Sorted, Ordered;
    InsertedSorted(ts, it, TimerTask(fun, tk));
    InsertedTells(ts, now, es, it, TimerTask(fun, tk), Entry(fun, now + tk, added));
    InsertedOrdered(es, it, Entry(fun, now + tk, added), added);
    assert InsertAt(ts, it, TimerTask(fun, tk)) != [];
    hide Tells, InsertAt;
  }

  /** The counter overflows: nothing is due in its eyes, and every timer has the whole range more to go. */
  lemma {:induction false} OverflowGood(ts: seq<TimerTask>, passed: int, now: int, es: seq<Entry>, added: nat, diff: TimerTick)
    requires Good(ts, passed, now, es, added) && ts != [] && WRAP <= passed + diff
    ensures Good(ts, passed + diff - WRAP, now + diff, Later(es, WRAP), added)
    ensures passed + diff - WRAP < ts[0].time && Due(es, now + diff) != []
  {
    var later := Later(es, WRAP);
    forall i, j | 0 <= i < j < |es| ensures Precedes(later[i], later[j]) {
      assert Precedes(es[i], es[j]);
    }
    FrontDue(es, now + diff);
  }

  lemma {:induction false} FrontDue(es: seq<Entry>, now: int)
    requires es != [] && es[0].deadline <= now
    ensures Due(es, now) != []
  {
    SplitByDeadline(es, now);
    assert es[0] in Due(es, now);
  }

  /** The front timer is not due, so none is. */
  lemma {:induction false} QuietGood(ts: seq<TimerTask>, passed: int, now: int, es: seq<Entry>, added: nat, diff: TimerTick)
    requires Good(ts, passed, now, es, added) && ts != [] && passed + diff < ts[0].time
    ensures Good(ts, passed + diff, now + diff, es, added)
    ensures Due(es, now + diff) == [] && Waiting(es, now + diff) == es
  {
    hide Ordered, Due, Waiting;
    forall i | 0 <= i < |es| ensures es[i].deadline > now + diff {
      assert i == 0 || ts[0].time <= ts[i].time;
      assert ts[i].time - passed == es[i].deadline - now;
    }
    NothingDue(es, now + diff);
  }

  lemma {:induction false} KeptSorted(kept: seq<TimerTask>, now: int, waiting: seq<Entry>)
    requires Tells(kept, 0, now, waiting) && Ordered(waiting)
    ensures Sorted(kept)
  {
    forall i, j | 0 <= i < j < |kept| ensures kept[i].time <= kept[j].time {
      assert Precedes(waiting[i], waiting[j]);
    }
  }

  lemma {:induction false} WaitingSerials(es: seq<Entry>, now: int, added: nat)
    requires forall i | 0 <= i < |es| :: es[i].serial < added
    ensures forall i | 0 <= i < |Waiting(es, now)| :: Waiting(es, now)[i].serial < added
  {
    SplitByDeadline(es, now);
    forall i | 0 <= i < |Waiting(es, now)| ensures Waiting(es, now)[i].serial < added {
      assert Waiting(es, now)[i] in Waiting(es, now);
    }
  }

  lemma RingFront(ts: seq<TimerTask>, passed: int, now: int, es: seq<Entry>, added: nat, diff: TimerTick)
    requires Good(ts, passed, now, es, added) && ts != [] && ts[0].time <= passed + diff
    ensures Tells(ts, passed + diff, now + diff, es) && Ordered(es) && es != [] && es[0].deadline <= now + diff
    ensures passed + diff == 0 && passed == 0 ==> Good(ts, 0, now + diff, es, added)
    ensures forall i | 0 <= i < |es| :: es[i].serial < added
  {
    hide Ordered;
  }

  /** The front timer is due. */
  lemma {:induction false} RingGood(ts: seq<TimerTask>, passed: int, now: int, es: seq<Entry>, added: nat, diff: TimerTick)
    requires Good(ts, passed, now, es, added) && ts != [] && ts[0].time <= passed + diff < WRAP && 0 <= passed
    ensures Due(es, now + diff) != []
    ensures passed + diff == 0 ==> Good(ts, 0, now + diff, es, added)
    ensures Good(Kept(ts, passed + diff, true), 0, now + diff, Waiting(es, now + diff), added)
    ensures Called(ts, passed + diff) == Funs(Due(es, now + diff))
  {
    hide Sorted, Tells, Ordered, Kept, Called, Due, Waiting, Funs, Good;
    RingFront(ts, passed, now, es, added, diff);
    FrontDue(es, now + diff);
    RotationTells(ts, passed + diff, now + diff, es);
    RotationCalls(ts, passed + diff, now + diff, es);
    WaitingKept(es, now + diff);
    KeptSorted(Kept(ts, passed + diff, true), now + diff, Waiting(es, now + diff));
    WaitingSerials(es, now + diff, added);
    Settled(Kept(ts, passed + diff, true), now + diff, Waiting(es, now + diff), added);
  }

  lemma Settled(ts: seq<TimerTask>, now: int, es: seq<Entry>, added: nat)
    requires Sorted(ts) && Tells(ts, 0, now, es) && Ordered(es) && forall i | 0 <= i < |es| :: es[i].serial < added
    ensures Good(ts, 0, now, es, added)
  {
    hide Sorted, Tells, Ordered;
  }

  /** What a heartbeat does, seen by the owners of the timers. */
  predicate Beat(passed: int, es: seq<Entry>, now: int, diff: TimerTick, called: seq<int>, es': seq<Entry>, passed': int) {
    if es == [] then called == [] && es' == [] && passed' == 0
    else if passed + diff >= WRAP then called == [] && es' == Later(es, WRAP) && passed' == passed + diff - WRAP && Due(es, now) != []
    else if Due(es, now) == [] then called == [] && es' == es && passed' == passed + diff
    else if passed + diff == 0 then called == [] && es' == es && passed' == 0
    else called == Funs(Due(es, now)) && es' == Waiting(es, now) && passed' == 0
  }

  /**
   A heartbeat calls exactly the due timers if and only if the pending time neither overflows
   nor is zero while something is due.
   */
  lemma {:induction false} BeatExact(passed: int, es: seq<Entry>, now: int, diff: TimerTick, called: seq<int>, es': seq<Entry>, passed': int)
    requires Beat(passed, es, now, diff, called, es', passed') && 0 <= passed && (es == [] ==> passed == 0)
    ensures called == Funs(Due(es, now)) <==> passed + diff < WRAP && (passed + diff > 0 || Due(es, now) == [])
  {
    assert |Funs(Due(es, now))| == |Due(es, now)|;
  }

  lemma {:induction false} KeptStep(ts: seq<TimerTask>, k: nat, passed: TimerTick, call: bool)
    requires k < |ts|
    ensures Kept(ts[..k + 1], passed, call) == Kept(ts[..k], passed, call)
      + if ts[k].time > passed then [ts[k].(time := ts[k].time - passed)] else if call then [] else [ts[k].(time := 0)]
    ensures Called(ts[..k + 1], passed) == Called(ts[..k], passed) + if ts[k].time <= passed then [ts[k].fun] else []
  {
    assert ts[..k + 1][..k] == ts[..k];
  }

  /** Changing and dropping the element in the middle of a list. */
  lemma Middle<T>(a: seq<T>, x: T, b: seq<T>, y: T)
    ensures (a + [x] + b)[|a| := y] == a + [y] + b
    ensures (a + [x] + b)[..|a|] + (a + [x] + b)[|a| + 1..] == a + b
  {
  }

  /** Rotation has dealt with the first `k` timers of `ts` and stands at `it`. */
  predicate Rotating(ts: seq<TimerTask>, passed: TimerTick, call: bool, k: nat, timers: seq<TimerTask>, it: nat, called: seq<int>) {
    && k <= |ts| && it == |Kept(ts[..k], passed, call)|
    && timers == Kept(ts[..k], passed, call) + ts[k..]
    && called == if call then Called(ts[..k], passed) else []
  }

  lemma {:induction false} RotatingStep(ts: seq<TimerTask>, passed: TimerTick, call: bool, k: nat, timers: seq<TimerTask>, it: nat, called: seq<int>)
    requires Rotating(ts, passed, call, k, timers, it, called) && it < |timers|
    ensures k < |ts|
    ensures timers[it].time > passed ==>
      Rotating(ts, passed, call, k + 1, timers[it := timers[it].(time := timers[it].time - passed)], it + 1, called)
    ensures timers[it].time <= passed && call ==>
      Rotating(ts, passed, call, k + 1, timers[..it] + timers[it + 1..], it, called + [timers[it].fun])
    ensures timers[it].time <= passed && !call ==>
      Rotating(ts, passed, call, k + 1, timers[it := timers[it].(time := 0)], it + 1, called)
  {
    hide Kept, Called;
    var done := Kept(ts[..k], passed, call);
    KeptStep(ts, k, passed, call);
    assert ts[k..] == [ts[k]] + ts[k + 1..];
    assert timers == done + [ts[k]] + ts[k + 1..];
    if timers[it].time > passed {
      Middle(done, ts[k], ts[k + 1..], ts[k].(time := ts[k].time - passed));
    } else {
      Middle(done, ts[k], ts[k + 1..], ts[k].(time := 0));
    }
  }

  lemma RotatingStart(ts: seq<TimerTask>, passed: TimerTick, call: bool)
    ensures Rotating(ts, passed, call, 0, ts, 0, [])
  {
    assert ts[..0] == [];
  }

  lemma RotatingEnd(ts: seq<TimerTask>, passed: TimerTick, call: bool, k: nat, timers: seq<TimerTask>, it: nat, called: seq<int>)
    requires Rotating(ts, passed, call, k, timers, it, called) && it >= |timers|
    ensures timers == Kept(ts, passed, call) && called == if call then Called(ts, passed) else []
  {
    hide Kept, Called;
    assert k == |ts|;
    assert ts[..k] == ts;
    assert ts[k..] == [];
  }

  class TimerQueue {
    var timePassed: TimerTick
    var timers: seq<TimerTask>

    ghost var now: int
    ghost var entries: seq<Entry>
    ghost var added: nat

    ghost predicate Valid()
      reads this
    {
      Good(timers, timePassed, now, entries, added)
    }

    constructor ()
      ensures Valid() && timePassed == 0 && entries == [] && now == 0 && added == 0
    {
      timePassed, timers := 0, [];
      now, entries, added := 0, [], 0;
    }

    method TimerRotation(call: bool) returns (called: seq<int>)
      modifies this`timers
      ensures timers == if timePassed == 0 then old(timers) else Kept(old(timers), timePassed, call)
      ensures called == if timePassed == 0 || !call then [] else Called(old(timers), timePassed)
    {
      hide Rotating, Kept, Called;
      called := [];
      if timePassed == 0 {
        return;
      }
      ghost var ts, k := timers, 0;
      var it := 0;
      RotatingStart(ts, timePassed, call);
      while it < |timers|
        invariant k <= |ts| && Rotating(ts, timePassed, call, k, timers, it, called)
        decreases |ts| - k
      {
        RotatingStep(ts, timePassed, call, k, timers, it, called);
        if timers[it].time <= timePassed {
          if call {
            called := called + [timers[it].fun];
            timers := timers[..it] + timers[it + 1..];
          } else {
            timers := timers[it := timers[it].(time := 0)];
            it := it + 1;
          }
        } else {
          timers := timers[it := timers[it].(time := timers[it].time - timePassed)];
          it := it + 1;
        }
        k := k + 1;
      }
      RotatingEnd(ts, timePassed, call, k, timers, it, called);
    }

    /** `std::lower_bound` on the remaining times. */
    method LowerBound(time: TimerTick) returns (it: nat)
      requires Sorted(timers)
      ensures Lower(timers, time, it)
    {
      it := 0;
      while it < |timers| && timers[it].time < time
        invariant it <= |timers| && forall i | 0 <= i < it :: timers[i].time < time
      {
        it := it + 1;
      }
    }

    /** Brings the list up to date; no timer in it has expired. */
    method Settle()
      requires Valid()
      modifies this`timePassed, this`timers
      ensures Valid() && timePassed == 0
    {
      if timePassed != 0 {
        SettleGood(timers, timePassed, now, entries, added);
        hide Good, Kept, Called;
        var called := TimerRotation(false);
        timePassed := 0;
      }
    }

    method InsertSettled(fun: int, tk: TimerTick) returns (ghost at: nat)
      requires Valid() && timePassed == 0
      modifies this`timers, this`entries, this`added
      ensures Valid() && added == old(added) + 1
      ensures at <= |old(entries)| && entries == InsertAt(old(entries), at, Entry(fun, now + tk, old(added)))
    {
      hide Sorted, Lower, InsertAt;
      assert Sorted(timers);
      hide Good;
      var it := LowerBound(tk);
      at := it;
      AddGood(timers, now, entries, added, at, fun, tk);
      entries := InsertAt(entries, at, Entry(fun, now + tk, added));
      added := added + 1;
      timers := InsertAt(timers, it, TimerTask(fun, tk));
    }

    /** The new timer goes in before the first one that is not due earlier. */
    method AddTimer(fun: int, tk: TimerTick) returns (ghost at: nat)
      requires Valid()
      modifies this
      ensures Valid() && now == old(now) && added == old(added) + 1 && timePassed == 0
      ensures at <= |old(entries)| && entries == InsertAt(old(entries), at, Entry(fun, now + tk, old(added)))
    {
      hide Good, InsertAt;
      Settle();
      at := InsertSettled(fun, tk);
    }

    /** What the heartbeat does is `Beat`; when that is right is `BeatExact`. */
    method Heartbeat(diff: TimerTick) returns (called: seq<int>)
      requires Valid()
      modifies this
      ensures Valid() && now == old(now) + diff && added == old(added)
      ensures Beat(old(timePassed), old(entries), now, diff, called, entries, timePassed)
    {
      hide Kept, Called, Due, Waiting, Later, Funs;
      ghost var ts, passed, es := timers, timePassed, entries;
      now := now + diff;
      if timers == [] {
        assert entries == [];
        return [];
      }
      timePassed := AddTicks(timePassed, diff);
      if timePassed < timers[0].time {
        QuietBeat(ts, passed, old(now), es, added, diff);
        entries := if passed + diff >= WRAP then Later(es, WRAP) else es;
        return [];
      }
      RingBeat(ts, passed, old(now), es, added, diff);
      called := TimerRotation(true);
      entries := if timePassed == 0 then entries else Waiting(entries, now);
      timePassed := 0;
    }
  }

  /** Addition of unsigned 32-bit numbers. */
  function AddTicks(a: TimerTick, b: TimerTick): (r: TimerTick)
    ensures r == if a + b < WRAP then a + b else a + b - WRAP
  {
    (a + b) % WRAP
  }

  lemma {:induction false} QuietBeat(ts: seq<TimerTask>, passed: TimerTick, now: int, es: seq<Entry>, added: nat, diff: TimerTick)
    requires Good(ts, passed, now, es, added) && ts != [] && AddTicks(passed, diff) < ts[0].time
    ensures var es' := if passed + diff >= WRAP then Later(es, WRAP) else es;
      Good(ts, AddTicks(passed, diff), now + diff, es', added)
      && Beat(passed, es, now + diff, diff, [], es', AddTicks(passed, diff))
  {
    assert es != [];
    if passed + diff >= WRAP {
      OverflowGood(ts, passed, now, es, added, diff);
    } else {
      QuietGood(ts, passed, now, es, added, diff);
    }
    hide Good;
  }

  lemma {:induction false} RingBeat(ts: seq<TimerTask>, passed: TimerTick, now: int, es: seq<Entry>, added: nat, diff: TimerTick)
    requires Good(ts, passed, now, es, added) && ts != [] && ts[0].time <= AddTicks(passed, diff)
    ensures passed + diff < WRAP
    ensures var es' := if passed + diff == 0 then es else Waiting(es, now + diff);
      var called := if passed + diff == 0 then [] else Called(ts, passed + diff);
      Good(if passed + diff == 0 then ts else Kept(ts, passed + diff, true), 0, now + diff, es', added)
      && Beat(passed, es, now + diff, diff, called, es', 0)
  {
    assert es != [];
    if passed + diff >= WRAP {
      OverflowGood(ts, passed, now, es, added, diff);
      assert false;
    }
    RingGood(ts, passed, now, es, added, diff);
    hide Good;
  }

  // ------------------------------------------------------------- whole runs

  datatype Op = Add(fun: int, tk: TimerTick) | Wait(diff: TimerTick)

  /** The timers as a set of deadlines, a clock, and the time since the clock last mattered. */
  datatype Ideal = Ideal(now: int, since: int, live: set<Entry>, added: nat)

  function DueSet(s: Ideal, diff: TimerTick): (r: set<Entry>) {
    set e | e in s.live && e.deadline <= s.now + diff
  }

  function Step(s: Ideal, op: Op): Ideal {
    match op
    case Add(fun, tk) => Ideal(s.now, 0, s.live + {Entry(fun, s.now + tk, s.added)}, s.added + 1)
    case Wait(diff) =>
      Ideal(s.now + diff, if s.live == {} || DueSet(s, diff) != {} then 0 else s.since + diff, s.live - DueSet(s, diff), s.added)
  }

  function After(ops: seq<Op>): Ideal {
    if ops == [] then Ideal(0, 0, {}, 0) else Step(After(ops[..|ops| - 1]), ops[|ops| - 1])
  }

  /** The heartbeat is one that `BeatExact` says is right. */
  predicate Punctual(s: Ideal, op: Op) {
    op.Wait? ==> s.since + op.diff < WRAP && (s.since + op.diff > 0 || DueSet(s, op.diff) == {})
  }

  predicate AllPunctual(ops: seq<Op>) {
    ops == [] || (AllPunctual(ops[..|ops| - 1]) && Punctual(After(ops[..|ops| - 1]), ops[|ops| - 1]))
  }

  /** The list holds the set. */
  ghost predicate Holds(s: Ideal, passed: int, now: int, es: seq<Entry>, added: nat) {
    s.now == now && s.since == passed && s.added == added && forall e :: e in es <==> e in s.live
  }

  /** `fired` are the timers that `op` makes due, in order. */
  ghost predicate Fires(s: Ideal, op: Op, fired: seq<Entry>) {
    if op.Wait? then Ordered(fired) && forall e :: e in fired <==> e in DueSet(s, op.diff) else fired == []
  }

  lemma {:induction false} AddHolds(s: Ideal, passed: int, now: int, es: seq<Entry>, added: nat, at: nat, fun: int, tk: TimerTick)
    requires Holds(s, passed, now, es, added) && at <= |es|
    ensures Holds(Step(s, Add(fun, tk)), 0, now, InsertAt(es, at, Entry(fun, now + tk, added)), added + 1)
  {
    assert es == es[..at] + es[at..];
  }

  lemma {:induction false} WaitHolds(s: Ideal, passed: int, now: int, es: seq<Entry>, added: nat, diff: TimerTick,
                                     called: seq<int>, es': seq<Entry>, passed': int)
    requires Holds(s, passed, now, es, added) && Ordered(es) && 0 <= passed && Punctual(s, Wait(diff))
    requires Beat(passed, es, now + diff, diff, called, es', passed')
    ensures Holds(Step(s, Wait(diff)), passed', now + diff, es', added)
    ensures Fires(s, Wait(diff), Due(es, now + diff)) && called == Funs(Due(es, now + diff))
  {
    hide Due, Waiting, Ordered, Funs, DueSet, Later;
    SameSets(s, passed, now, es, added, diff);
    DueIsFront(es, now + diff);
    FrontOrdered(es, |Due(es, now + diff)|);
    assert es[..|Due(es, now + diff)|] == Due(es, now + diff);
  }

  lemma {:induction false} SameSets(s: Ideal, passed: int, now: int, es: seq<Entry>, added: nat, diff: TimerTick)
    requires Holds(s, passed, now, es, added)
    ensures forall e :: e in Due(es, now + diff) <==> e in DueSet(s, diff)
    ensures forall e :: e in Waiting(es, now + diff) <==> e in s.live - DueSet(s, diff)
    ensures Due(es, now + diff) == [] <==> DueSet(s, diff) == {}
    ensures es == [] <==> s.live == {}
    ensures Due(es, now + diff) == [] ==> DueSet(s, diff) == {} && s.live - DueSet(s, diff) == s.live
  {
    hide Due, Waiting;
    SplitByDeadline(es, now + diff);
    var due := Due(es, now + diff);
    assert due != [] ==> due[0] in DueSet(s, diff);
    assert es != [] ==> es[0] in s.live;
  }

  /** In the first `n` operations every punctual heartbeat called what was due, in order. */
  ghost predicate Right(ops: seq<Op>, n: nat, called: seq<seq<int>>, fired: seq<seq<Entry>>) {
    && n <= |ops| && |called| == n && |fired| == n
    && forall i | 0 <= i < n && AllPunctual(ops[..i + 1]) ::
      Fires(After(ops[..i]), ops[i], fired[i]) && called[i] == Funs(fired[i])
  }

  /**
   Every run: as long as the heartbeats are punctual, each calls exactly the timers added before
   it, not called before it and due by then, in the order of their deadlines.
   */
  method Run(ops: seq<Op>) returns (called: seq<seq<int>>, ghost fired: seq<seq<Entry>>)
    ensures Right(ops, |ops|, called, fired)
  {
    hide After, AllPunctual, Fires, Holds, Punctual, Step, Funs, Good, Right;
    var q := new TimerQueue();
    called, fired := [], [];
    var n := 0;
    RunStart(ops, q.timePassed);
    while n < |ops|
      invariant n <= |ops| && fresh(q) && q.Valid() && Right(ops, n, called, fired)
      invariant AllPunctual(ops[..n]) ==> Holds(After(ops[..n]), q.timePassed, q.now, q.entries, q.added)
    {
      NextOp(ops, n);
      var r, f := Apply(q, ops[n], After(ops[..n]));
      RightNext(ops, n, called, fired, r, f);
      called, fired := called + [r], fired + [f];
      n := n + 1;
    }
  }

  lemma RunStart(ops: seq<Op>, passed: int)
    ensures Right(ops, 0, [], [])
    ensures passed == 0 ==> Holds(After(ops[..0]), passed, 0, [], 0)
  {
    assert ops[..0] == [];
  }

  lemma RightNext(ops: seq<Op>, n: nat, called: seq<seq<int>>, fired: seq<seq<Entry>>, r: seq<int>, f: seq<Entry>)
    requires n < |ops| && Right(ops, n, called, fired)
    requires AllPunctual(ops[..n + 1]) ==> Fires(After(ops[..n]), ops[n], f) && r == Funs(f)
    ensures Right(ops, n + 1, called + [r], fired + [f])
  {
    hide After, AllPunctual, Fires, Funs;
  }

  method Apply(q: TimerQueue, op: Op, ghost s: Ideal) returns (called: seq<int>, ghost fired: seq<Entry>)
    requires q.Valid()
    modifies q
    ensures q.Valid()
    ensures old(Holds(s, q.timePassed, q.now, q.entries, q.added)) && Punctual(s, op) ==>
      Holds(Step(s, op), q.timePassed, q.now, q.entries, q.added) && Fires(s, op, fired) && called == Funs(fired)
  {
    hide Holds, Punctual, Step, Beat, Ordered, Due;
    assert Ordered(q.entries);
    ghost var passed, now, es, added := q.timePassed, q.now, q.entries, q.added;
    hide Good;
    match op {
      case Add(fun, tk) =>
        ghost var at := q.AddTimer(fun, tk);
        if Holds(s, passed, now, es, added) {
          AddHolds(s, passed, now, es, added, at, fun, tk);
        }
        called, fired := [], [];
      case Wait(diff) =>
        called := q.Heartbeat(diff);
        fired := Due(es, now + diff);
        if Holds(s, passed, now, es, added) && Punctual(s, op) {
          WaitHolds(s, passed, now, es, added, diff, called, q.entries, q.timePassed);
        }
    }
  }

  lemma NextOp(ops: seq<Op>, n: nat)
    requires n < |ops|
    ensures After(ops[..n + 1]) == Step(After(ops[..n]), ops[n])
    ensures AllPunctual(ops[..n + 1]) <==> AllPunctual(ops[..n]) && Punctual(After(ops[..n]), ops[n])
    ensures ops[n].Add? ==> Punctual(After(ops[..n]), ops[n]) && Fires(After(ops[..n]), ops[n], []) && Funs([]) == []
  {
    assert ops[..n + 1][..n] == ops[..n];
  }
}
