/**
 The sending side of a connection: posted messages queue up, one asynchronous write at a time
 is in flight, and its completion starts the next.  All of it runs on one io thread, so a step
 is one callback.
 */
module WriteQueue {
  import opened Wrappers

  datatype ClosedType = Normal | Timeout | Activity

  /** `Send` is the lambda that `sendMessage` posts; `WriteDone` the completion of the write in flight. */
  datatype Event = Send(msg: int) | WriteDone(ok: bool) | Close(reason: ClosedType)

  /**
   `started` is what was handed to the socket, `completed` what it reported written, `inFlight`
   whether a completion is outstanding, `notices` the calls to the owner about closing.
   */
  datatype State = State(
    queue: seq<int>, closed: bool, inFlight: bool,
    posted: seq<int>, started: seq<int>, completed: seq<int>, failed: bool, notices: seq<ClosedType>)

  const INITIAL := State([], false, false, [], [], [], false, [])

  predicate Enabled(s: State, e: Event) {
    e.WriteDone? ==> s.inFlight
  }

  /** `doWrite`: the front of the queue goes to the socket. */
  function Started(s: State): State
    requires s.queue != []
  {
    s.(inFlight := true, started := s.started + [s.queue[0]])
  }

  /** `doClosed`: only the first reason counts, and an active shutdown is not notified. */
  function Closed(s: State, reason: ClosedType): State {
    if s.closed then s
    else s.(closed := true, notices := s.notices + if reason == Activity then [] else [reason])
  }

  function Next(s: State, e: Event): State
    requires Enabled(s, e) && Inv(s)
  {
    match e
    case Send(msg) =>
      var s' := s.(queue := s.queue + [msg], posted := s.posted + [msg]);
      if s.queue != [] then s' else Started(s')
    case WriteDone(ok) =>
      if !ok then Closed(s.(inFlight := false, failed := true), Normal)
      else
        var s' := s.(queue := s.queue[1..], completed := s.completed + [s.queue[0]], inFlight := false);
        if s'.queue != [] then Started(s') else s'
    case Close(reason) => Closed(s, reason)
  }

  /**
   A write is in flight exactly when there is something to send and none has failed; what was
   completed and what is queued are what was posted, in order; the socket got a front part of
   it; and the owner is told of the closing at most once, and only of a closed connection.
   */
  predicate Inv(s: State) {
    && (s.inFlight <==> s.queue != [] && !s.failed)
    && (s.failed ==> s.queue != [] && s.closed)
    && s.posted == s.completed + s.queue
    && s.started == s.completed + (if s.queue == [] then [] else [s.queue[0]])
    && |s.notices| <= (if s.closed then 1 else 0)
    && Activity !in s.notices
  }

  lemma {:induction false} Keeps(s: State, e: Event)
    requires Inv(s) && Enabled(s, e)
    ensures Inv(Next(s, e))
  {
    match e {
      case Send(msg) =>
        assert s.completed + s.queue + [msg] == s.completed + (s.queue + [msg]);
      case WriteDone(ok) =>
        if ok {
          assert s.completed + s.queue == s.completed + [s.queue[0]] + s.queue[1..];
        }
      case Close(reason) =>
    }
  }

  // ------------------------------------------------------------- whole runs

  predicate Possible(s: State, es: seq<Event>)
    requires Inv(s)
    decreases es
  {
    es == [] || (Enabled(s, es[0]) && (Keeps(s, es[0]); Possible(Next(s, es[0]), es[1..])))
  }

  function Run(s: State, es: seq<Event>): (r: State)
    requires Inv(s) && Possible(s, es)
    ensures Inv(r)
    decreases es
  {
    if es == [] then s else (Keeps(s, es[0]); Run(Next(s, es[0]), es[1..]))
  }

  function Sent(e: Event): seq<int> {
    if e.Send? then [e.msg] else []
  }

  function Posted(es: seq<Event>): seq<int> {
    if es == [] then [] else Sent(es[0]) + Posted(es[1..])
  }

  lemma NextPosts(s: State, e: Event)
    requires Inv(s) && Enabled(s, e)
    ensures Next(s, e).posted == s.posted + Sent(e)
  {
    hide Inv;
    assert s.posted + [] == s.posted;
  }

  lemma Join(a: seq<int>, b: seq<int>, c: seq<int>)
    ensures a + b + c == a + (b + c)
  {
  }

  /** Everything posted is accounted for, in every run. */
  lemma {:induction false} RunPosts(s: State, es: seq<Event>)
    requires Inv(s) && Possible(s, es)
    ensures Run(s, es).posted == s.posted + Posted(es)
    decreases es
  {
    if es == [] {
      assert s.posted + [] == s.posted;
    } else {
      Keeps(s, es[0]);
      NextPosts(s, es[0]);
      var s' := Next(s, es[0]);
      hide Inv, Next, Enabled, Sent;
      RunPosts(s', es[1..]);
      Join(s.posted, Sent(es[0]), Posted(es[1..]));
    }
  }

  /** After a failed write nothing is handed to the socket any more and nothing completes. */
  lemma {:induction false} SilentAfterFailure(s: State, es: seq<Event>)
    requires Inv(s) && Possible(s, es) && s.failed
    ensures Run(s, es).started == s.started && Run(s, es).completed == s.completed && Run(s, es).failed
    ensures Run(s, es).notices == s.notices
    decreases es
  {
    if es != [] {
      Keeps(s, es[0]);
      SilentAfterFailure(Next(s, es[0]), es[1..]);
    }
  }

  /** Why an event closes the connection, if it does: a failed write does so as a normal closing. */
  function Cause(e: Event): Option<ClosedType> {
    match e
    case WriteDone(ok) => if ok then None else Some(Normal)
    case Close(reason) => Some(reason)
    case Send(_) => None
  }

  /** The reason of the first event that closes the connection. */
  function FirstCause(es: seq<Event>): Option<ClosedType> {
    if es == [] then None else if Cause(es[0]).Some? then Cause(es[0]) else FirstCause(es[1..])
  }

  /** What the owner should hear: that reason, unless it is a shutdown of its own. */
  function Notices(cause: Option<ClosedType>): seq<ClosedType> {
    match cause
    case None => []
    case Some(reason) => if reason == Activity then [] else [reason]
  }

  lemma NextCloses(s: State, e: Event)
    requires Inv(s) && Enabled(s, e)
    ensures Next(s, e).closed <==> s.closed || Cause(e).Some?
    ensures Next(s, e).notices == s.notices + if s.closed then [] else Notices(Cause(e))
    ensures Next(s, e).failed <==> s.failed || e == WriteDone(false)
  {
  }

  /** A connection closes with the first reason to, and the owner hears of that and of nothing else. */
  lemma {:induction false} RunCloses(s: State, es: seq<Event>)
    requires Inv(s) && Possible(s, es)
    ensures Run(s, es).closed <==> s.closed || FirstCause(es).Some?
    ensures Run(s, es).notices == s.notices + if s.closed then [] else Notices(FirstCause(es))
    ensures Run(s, es).failed <==> s.failed || WriteDone(false) in es
    decreases es
  {
    if es == [] {
      assert s.notices + [] == s.notices;
    } else {
      Keeps(s, es[0]);
      NextCloses(s, es[0]);
      var s' := Next(s, es[0]);
      hide Inv, Next, Enabled, Cause;
      RunCloses(s', es[1..]);
      assert s.notices + Notices(Cause(es[0])) + [] == s.notices + Notices(Cause(es[0]));
      assert es == [es[0]] + es[1..];
    }
  }

  /**
   Every run of a connection: what was completed is a front part of what was posted, what was
   handed to the socket is that and at most one more; it is closed exactly if something closed it,
   and the owner has heard of the first thing that did, unless that was a shutdown of its own.
   */
  lemma {:induction false} EveryRun(es: seq<Event>)
    requires Possible(INITIAL, es)
    ensures var s := Run(INITIAL, es);
      && s.completed <= s.started <= Posted(es) && |s.started| <= |s.completed| + 1
      && (s.inFlight <==> s.completed != Posted(es) && !s.failed)
      && (s.failed <==> WriteDone(false) in es) && (s.closed <==> FirstCause(es).Some?)
      && s.notices == Notices(FirstCause(es))
  {
    hide Run, Possible, Posted, Inv, FirstCause, Notices;
    InitialInv();
    RunCloses(INITIAL, es);
    assert [] + Notices(FirstCause(es)) == Notices(FirstCause(es));
    RunPosts(INITIAL, es);
    assert [] + Posted(es) == Posted(es);
    InvTells(Run(INITIAL, es));
  }

  lemma InitialInv()
    ensures Inv(INITIAL)
  {
  }

  lemma InvTells(s: State)
    requires Inv(s)
    ensures s.completed <= s.started <= s.posted && |s.started| <= |s.completed| + 1
    ensures s.inFlight <==> s.completed != s.posted && !s.failed
  {
    if s.queue != [] {
      assert s.queue == [s.queue[0]] + s.queue[1..];
      assert s.posted == s.started + s.queue[1..];
    }
  }

  // ------------------------------------------------------------- the handler

  class RWHandler {
    var writeBuffer: seq<int>
    var isClosed: bool
    ghost var s: State

    ghost predicate Valid()
      reads this
    {
      writeBuffer == s.queue && isClosed == s.closed && Inv(s)
    }

    constructor ()
      ensures Valid() && s == INITIAL
    {
      writeBuffer, isClosed, s := [], false, INITIAL;
    }

    /** The body of the lambda posted by `sendMessage`; tells whether it started a write. */
    method SendPosted(msg: int) returns (writes: bool)
      requires Valid()
      modifies this
      ensures Valid() && s == Next(old(s), Send(msg)) && (writes <==> s.started != old(s).started)
    {
      hide Inv;
      Keeps(s, Send(msg));
      ghost var s' := Next(s, Send(msg));
      assert s'.started != s.started <==> s.queue == [];
      assert s'.queue == s.queue + [msg] && s'.closed == s.closed;
      hide Next;
      var waitWrite := writeBuffer != [];
      writeBuffer := writeBuffer + [msg];
      writes := !waitWrite;
      s := s';
    }

    /** `doClosed`. */
    method MarkClosed(reason: ClosedType) returns (notified: bool)
      requires isClosed == s.closed
      modifies this`isClosed, this`s
      ensures s == Closed(old(s), reason) && isClosed == s.closed && (notified <==> s.notices != old(s).notices)
    {
      if isClosed {
        return false;
      }
      isClosed := true;
      notified := reason != Activity;
      s := Closed(s, reason);
    }

    /** `doClosed` on its own: a failed read, a timeout, a shutdown. */
    method DoClosed(reason: ClosedType) returns (notified: bool)
      requires Valid()
      modifies this
      ensures Valid() && s == Next(old(s), Close(reason)) && (notified <==> s.notices != old(s).notices)
    {
      Keeps(s, Close(reason));
      notified := MarkClosed(reason);
    }

    /** `doWriteCallback`; tells whether it started the next write and whether it notified the owner. */
    method DoWriteCallback(ok: bool) returns (writes: bool, notified: bool)
      requires Valid() && Enabled(s, WriteDone(ok))
      modifies this
      ensures Valid() && s == Next(old(s), WriteDone(ok))
      ensures (writes <==> s.started != old(s).started) && (notified <==> s.notices != old(s).notices)
    {
      Keeps(s, WriteDone(ok));
      ghost var s' := Next(s, WriteDone(ok));
      writes, notified := false, false;
      if !ok {
        s := s.(inFlight := false, failed := true);
        notified := MarkClosed(Normal);
        return;
      }
      writeBuffer := writeBuffer[1..];
      writes := writeBuffer != [];
      s := s';
    }
  }
}
