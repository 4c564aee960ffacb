/**
 The worker pool of the database service: threads that pop a shared queue until they find the
 service stopped, and a stop that queues one empty task for each of them.

 A step of the model is what one thread does without giving another the chance to interfere:
 a look at the running flag, a pop under the lock, the execution of a task, a submission, the
 two halves of `stop`, and the whole of `executeRemainTask`, which keeps the lock.
 */
module WorkerPool {

  datatype Task = Empty | Task(id: nat)

  /** Where a worker stands in `run`: before the loop test, committed to a pop, with a task, or out of the loop. */
  datatype Worker = Checking | Waiting | Holding(task: Task) | Exited

  datatype Phase = Running | Flipped | Pushed

  datatype State = State(
    queue: seq<Task>, workers: seq<Worker>, phase: Phase,
    submitted: nat, pushed: seq<Task>, popped: seq<Task>, executed: seq<nat>)

  datatype Event = Submit | Check(w: nat) | Pop(w: nat) | Execute(w: nat) | Flip | Push | Drain

  function Initial(n: nat): State {
    State([], seq(n, i => Checking), Running, 0, [], [], [])
  }

  predicate Enabled(s: State, e: Event) {
    match e
    case Submit => true
    case Check(w) => w < |s.workers| && s.workers[w] == Checking
    case Pop(w) => w < |s.workers| && s.workers[w] == Waiting && s.queue != []
    case Execute(w) => w < |s.workers| && s.workers[w].Holding?
    case Flip => true
    case Push => s.phase == Flipped
    case Drain => true
  }

  /** The tasks that are not empty. */
  function Ids(ts: seq<Task>): (r: seq<nat>) {
    if ts == [] then [] else Ids(ts[..|ts| - 1]) + if ts[|ts| - 1].Task? then [ts[|ts| - 1].id] else []
  }

  function Empties(n: nat): (r: seq<Task>)
    ensures |r| == n && forall i | 0 <= i < n :: r[i] == Empty
  {
    seq(n, i => Empty)
  }

  function Next(s: State, e: Event): State
    requires Enabled(s, e)
  {
    match e
    case Submit =>
      s.(queue := s.queue + [Task(s.submitted)], pushed := s.pushed + [Task(s.submitted)], submitted := s.submitted + 1)
    case Check(w) => s.(workers := s.workers[w := if s.phase == Running then Waiting else Exited])
    case Pop(w) => s.(workers := s.workers[w := Holding(s.queue[0])], queue := s.queue[1..], popped := s.popped + [s.queue[0]])
    case Execute(w) =>
      s.(workers := s.workers[w := Checking], executed := s.executed + Ids([s.workers[w].task]))
    case Flip => if s.phase == Running then s.(phase := Flipped) else s
    case Push => s.(phase := Pushed, queue := s.queue + Empties(|s.workers|), pushed := s.pushed + Empties(|s.workers|))
    case Drain =>
      if s.phase == Running then s
      else s.(queue := [], popped := s.popped + s.queue, executed := s.executed + Ids(s.queue))
  }

  // ------------------------------------------------------------- counting workers

  function WaitingCount(ws: seq<Worker>): (r: nat)
    ensures r <= |ws|
  {
    if ws == [] then 0 else WaitingCount(ws[..|ws| - 1]) + if ws[|ws| - 1] == Waiting then 1 else 0
  }

  function HeldBy(w: Worker): multiset<nat> {
    if w.Holding? then multiset(Ids([w.task])) else multiset{}
  }

  /** The tasks in the hands of workers. */
  function Held(ws: seq<Worker>): multiset<nat> {
    if ws == [] then multiset{} else Held(ws[..|ws| - 1]) + HeldBy(ws[|ws| - 1])
  }

  /** How far a worker is from its exit once the service is stopped. */
  function Distance(w: Worker): nat {
    match w
    case Waiting => 3
    case Holding(_) => 2
    case Checking => 1
    case Exited => 0
  }

  function TotalDistance(ws: seq<Worker>): (r: nat)
    ensures r <= 3 * |ws|
  {
    if ws == [] then 0 else TotalDistance(ws[..|ws| - 1]) + Distance(ws[|ws| - 1])
  }

  lemma {:induction false} ChangeWorker(ws: seq<Worker>, w: nat, x: Worker)
    requires w < |ws|
    ensures WaitingCount(ws[w := x]) == WaitingCount(ws) - (if ws[w] == Waiting then 1 else 0) + if x == Waiting then 1 else 0
    ensures TotalDistance(ws[w := x]) == TotalDistance(ws) - Distance(ws[w]) + Distance(x)
  {
    var n := |ws| - 1;
    if w == n {
      assert ws[w := x][..n] == ws[..n];
    } else {
      ChangeWorker(ws[..n], w, x);
      assert ws[w := x][..n] == ws[..n][w := x];
    }
  }

  lemma {:induction false} ChangeHeld(ws: seq<Worker>, w: nat, x: Worker)
    requires w < |ws|
    ensures Held(ws[w := x]) + HeldBy(ws[w]) == Held(ws) + HeldBy(x)
  {
    hide HeldBy;
    var n := |ws| - 1;
    if w == n {
      assert ws[w := x][..n] == ws[..n];
      assert Held(ws[w := x]) == Held(ws[..n]) + HeldBy(x);
    } else {
      ChangeHeld(ws[..n], w, x);
      assert ws[w := x][..n] == ws[..n][w := x];
      assert Held(ws[w := x]) == Held(ws[..n][w := x]) + HeldBy(ws[n]);
      assert Held(ws) == Held(ws[..n]) + HeldBy(ws[n]);
      hide Held;
      AddBoth(Held(ws[..n][w := x]), HeldBy(ws[w]), Held(ws[..n]), HeldBy(x), HeldBy(ws[n]));
    }
  }

  lemma AddBoth(a: multiset<nat>, b: multiset<nat>, c: multiset<nat>, d: multiset<nat>, e: multiset<nat>)
    requires a + b == c + d
    ensures a + e + b == c + e + d
  {
    assert a + e + b == (a + b) + e;
    assert c + e + d == (c + d) + e;
  }

  lemma {:induction false} IdsAppend(a: seq<Task>, b: seq<Task>)
    ensures Ids(a + b) == Ids(a) + Ids(b)
  {
    if b == [] {
      assert a + b == a;
    } else {
      var n := |b| - 1;
      IdsAppend(a, b[..n]);
      assert (a + b)[..|a + b| - 1] == a + b[..n];
    }
  }

  lemma {:induction false} NoIds(ts: seq<Task>)
    requires forall i | 0 <= i < |ts| :: ts[i] == Empty
    ensures Ids(ts) == []
  {
    if ts != [] {
      NoIds(ts[..|ts| - 1]);
    }
  }

  // ------------------------------------------------------------- what every run keeps

  /**
   Every task submitted was queued once, in the order of submission; what was popped is the
   front of what was queued; and each popped task is held by one worker or was executed once.
   */
  ghost predicate Conserved(s: State) {
    && s.pushed == s.popped + s.queue
    && Ids(s.pushed) == seq(s.submitted, i => i)
    && multiset(s.executed) + Held(s.workers) == multiset(Ids(s.popped))
  }

  /** Once the empty tasks are queued there is a task for every worker committed to a pop. */
  predicate Supplied(s: State) {
    s.phase == Pushed ==> WaitingCount(s.workers) <= |s.queue|
  }

  lemma {:induction false} SubmitConserves(s: State)
    requires Conserved(s)
    ensures Conserved(Next(s, Submit))
  {
    hide Held, Ids;
    IdsAppend(s.pushed, [Task(s.submitted)]);
    Behind(s.popped, s.queue, [Task(s.submitted)]);
    OneId(s.submitted);
    UpToNext(s.submitted);
  }

  lemma OneId(id: nat)
    ensures Ids([Task(id)]) == [id]
  {
  }

  lemma UpToNext(n: nat)
    ensures seq(n + 1, i => i) == seq(n, i => i) + [n]
  {
  }

  lemma {:induction false} WorkerConserves(s: State, w: nat, x: Worker)
    requires Conserved(s) && w < |s.workers| && HeldBy(s.workers[w]) == HeldBy(x) == multiset{}
    ensures Conserved(s.(workers := s.workers[w := x]))
  {
    hide HeldBy, Ids, Held;
    ChangeHeld(s.workers, w, x);
    assert Held(s.workers[w := x]) + multiset{} == Held(s.workers[w := x]);
    assert Held(s.workers) + multiset{} == Held(s.workers);
  }

  lemma {:induction false} PopConserves(s: State, w: nat)
    requires Conserved(s) && Enabled(s, Pop(w))
    ensures Conserved(Next(s, Pop(w)))
  {
    hide Ids, Held;
    var t := s.queue[0];
    Ahead(s.popped, s.queue);
    assert HeldBy(Holding(t)) == multiset(Ids([t])) && HeldBy(s.workers[w]) == multiset{};
    hide HeldBy;
    PopBag(multiset(s.executed), s.popped, s.workers, w, t);
  }

  lemma {:induction false} PopBag(executed: multiset<nat>, popped: seq<Task>, ws: seq<Worker>, w: nat, t: Task)
    requires executed + Held(ws) == multiset(Ids(popped)) && w < |ws|
    requires HeldBy(Holding(t)) == multiset(Ids([t])) && HeldBy(ws[w]) == multiset{}
    ensures executed + Held(ws[w := Holding(t)]) == multiset(Ids(popped + [t]))
  {
    hide HeldBy, Ids, Held;
    IdsAppend(popped, [t]);
    ChangeHeld(ws, w, Holding(t));
    assert Held(ws[w := Holding(t)]) + multiset{} == Held(ws[w := Holding(t)]);
    assert executed + (Held(ws) + multiset(Ids([t]))) == (executed + Held(ws)) + multiset(Ids([t]));
    assert multiset(Ids(popped) + Ids([t])) == multiset(Ids(popped)) + multiset(Ids([t]));
  }

  lemma {:induction false} ExecuteConserves(s: State, w: nat)
    requires Conserved(s) && Enabled(s, Execute(w))
    ensures Conserved(Next(s, Execute(w)))
  {
    hide Ids, Held;
    assert HeldBy(Checking) == multiset{} && HeldBy(s.workers[w]) == multiset(Ids([s.workers[w].task]));
    var ws, x := s.workers[w := Checking], Ids([s.workers[w].task]);
    hide HeldBy;
    ChangeHeld(s.workers, w, Checking);
    assert multiset(s.executed + x) == multiset(s.executed) + multiset(x);
    assert multiset(s.executed) + multiset(x) + Held(ws) == multiset(s.executed) + (Held(ws) + multiset(x));
    assert Held(s.workers) + multiset{} == Held(s.workers);
  }

  lemma {:induction false} PushConserves(s: State)
    requires Conserved(s) && Enabled(s, Push)
    ensures Conserved(Next(s, Push))
  {
    hide Ids, Held, Empties;
    var e := Empties(|s.workers|);
    NoIds(e);
    IdsAppend(s.pushed, e);
    Behind(s.popped, s.queue, e);
    assert Ids(s.pushed) + [] == Ids(s.pushed);
  }

  lemma {:induction false} DrainConserves(s: State)
    requires Conserved(s)
    ensures Conserved(Next(s, Drain))
  {
    hide Ids, Held;
    IdsAppend(s.popped, s.queue);
    assert s.popped + s.queue + [] == s.popped + s.queue;
  }

  lemma {:induction false} Conserves(s: State, e: Event)
    requires Conserved(s) && Enabled(s, e)
    ensures Conserved(Next(s, e))
  {
    match e {
      case Submit => SubmitConserves(s);
      case Check(w) => WorkerConserves(s, w, if s.phase == Running then Waiting else Exited);
      case Pop(w) => PopConserves(s, w);
      case Execute(w) => ExecuteConserves(s, w);
      case Flip => hide Held, Ids;
      case Push => PushConserves(s);
      case Drain => DrainConserves(s);
    }
    hide Conserved;
  }

  lemma Behind(a: seq<Task>, b: seq<Task>, c: seq<Task>)
    ensures a + b + c == a + (b + c)
  {
  }

  lemma Ahead(a: seq<Task>, b: seq<Task>)
    requires b != []
    ensures a + [b[0]] + b[1..] == a + b
  {
  }

  /** What `OnePlace` adds up: the queue, the workers' hands and the log. */
  function Places(s: State, id: nat): nat {
    multiset(Ids(s.queue))[id] + Held(s.workers)[id] + multiset(s.executed)[id]
  }

  lemma CountUpTo(n: nat, id: nat)
    ensures multiset(seq(n, i => i))[id] == if id < n then 1 else 0
  {
    var s := seq(n, i => i);
    if n > 0 {
      CountUpTo(n - 1, id);
      assert s == seq(n - 1, i => i) + [n - 1];
    }
  }

  /** Each task submitted is in exactly one place: queued, held by a worker, or executed, once. */
  lemma {:induction false} OnePlace(s: State, id: nat)
    requires Conserved(s)
    ensures Places(s, id) == if id < s.submitted then 1 else 0
  {
    hide Ids, Held;
    IdsAppend(s.popped, s.queue);
    CountUpTo(s.submitted, id);
    assert multiset(Ids(s.popped) + Ids(s.queue)) == multiset(Ids(s.popped)) + multiset(Ids(s.queue));
    assert (multiset(s.executed) + Held(s.workers))[id] == multiset(s.executed)[id] + Held(s.workers)[id];
  }

  /** Supply is kept by every step but a drain that comes while a worker is committed to a pop. */
  lemma {:induction false} SupplyExact(s: State, e: Event)
    requires Supplied(s) && Enabled(s, e)
    ensures Supplied(Next(s, e)) <==> !(e == Drain && s.phase == Pushed && WaitingCount(s.workers) > 0)
  {
    match e {
      case Check(w) => ChangeWorker(s.workers, w, if s.phase == Running then Waiting else Exited);
      case Pop(w) => ChangeWorker(s.workers, w, Holding(s.queue[0]));
      case Execute(w) => ChangeWorker(s.workers, w, Checking);
      case _ =>
    }
  }

  /** The next step of a worker, whichever it is. */
  function StepOf(s: State, w: nat): Event
    requires w < |s.workers|
  {
    match s.workers[w]
    case Waiting => Pop(w)
    case Holding(_) => Execute(w)
    case _ => Check(w)
  }

  predicate ByWorker(e: Event) {
    e.Check? || e.Pop? || e.Execute?
  }

  lemma {:induction false} WaitingIsCounted(ws: seq<Worker>, w: nat)
    requires w < |ws| && ws[w] == Waiting
    ensures WaitingCount(ws) > 0
  {
    if w < |ws| - 1 {
      WaitingIsCounted(ws[..|ws| - 1], w);
    }
  }

  /** After `stop` no worker is stuck: each one that has not left the loop can take its next step. */
  lemma {:induction false} NoWorkerStuck(s: State, w: nat)
    requires Supplied(s) && s.phase == Pushed && w < |s.workers| && s.workers[w] != Exited
    ensures Enabled(s, StepOf(s, w))
  {
    if s.workers[w] == Waiting {
      WaitingIsCounted(s.workers, w);
    }
  }

  /** After `stop` every step of a worker brings the workers nearer to their exits, and nothing else moves them. */
  lemma {:induction false} StepsCount(s: State, e: Event)
    requires s.phase != Running && Enabled(s, e)
    ensures Next(s, e).phase != Running
    ensures if ByWorker(e) then TotalDistance(Next(s, e).workers) < TotalDistance(s.workers) else Next(s, e).workers == s.workers
  {
    match e {
      case Check(w) => ChangeWorker(s.workers, w, Exited);
      case Pop(w) => ChangeWorker(s.workers, w, Holding(s.queue[0]));
      case Execute(w) => ChangeWorker(s.workers, w, Checking);
      case _ =>
    }
  }

  // ------------------------------------------------------------- whole runs

  predicate Possible(s: State, es: seq<Event>)
    decreases es
  {
    es == [] || (Enabled(s, es[0]) && Possible(Next(s, es[0]), es[1..]))
  }

  function Run(s: State, es: seq<Event>): State
    requires Possible(s, es)
    decreases es
  {
    if es == [] then s else Run(Next(s, es[0]), es[1..])
  }

  /** No drain comes between `stop` and the moment the last committed worker has popped. */
  predicate Patient(s: State, es: seq<Event>)
    requires Possible(s, es)
    decreases es
  {
    es == [] || (!(es[0] == Drain && s.phase == Pushed && WaitingCount(s.workers) > 0) && Patient(Next(s, es[0]), es[1..]))
  }

  function WorkerSteps(es: seq<Event>): nat {
    if es == [] then 0 else (if ByWorker(es[0]) then 1 else 0) + WorkerSteps(es[1..])
  }

  lemma {:induction false} RunKeeps(s: State, es: seq<Event>)
    requires Conserved(s) && Supplied(s) && Possible(s, es)
    ensures Conserved(Run(s, es))
    ensures Patient(s, es) ==> Supplied(Run(s, es))
    decreases es
  {
    hide Conserved, Supplied;
    RunConserves(s, es);
    if Patient(s, es) {
      RunSupplies(s, es);
    }
  }

  lemma {:induction false} RunConserves(s: State, es: seq<Event>)
    requires Conserved(s) && Possible(s, es)
    ensures Conserved(Run(s, es))
    decreases es
  {
    if es != [] {
      Conserves(s, es[0]);
      var s' := Next(s, es[0]);
      hide Conserved, Next, Enabled;
      RunConserves(s', es[1..]);
    }
  }

  lemma {:induction false} RunSupplies(s: State, es: seq<Event>)
    requires Supplied(s) && Possible(s, es) && Patient(s, es)
    ensures Supplied(Run(s, es))
    decreases es
  {
    if es != [] {
      SupplyExact(s, es[0]);
      hide Supplied, Next, Enabled, WaitingCount;
      RunSupplies(Next(s, es[0]), es[1..]);
    }
  }

  /** However the threads interleave, the workers take at most three steps each once the service is stopped. */
  lemma {:induction false} StopEnds(s: State, es: seq<Event>)
    requires s.phase != Running && Possible(s, es)
    ensures WorkerSteps(es) + TotalDistance(Run(s, es).workers) <= TotalDistance(s.workers) <= 3 * |s.workers|
    decreases es
  {
    if es != [] {
      StepsCount(s, es[0]);
      hide Next, Enabled;
      StopEnds(Next(s, es[0]), es[1..]);
    }
  }

  lemma {:induction false} NobodyHolds(ws: seq<Worker>)
    requires forall w | 0 <= w < |ws| :: ws[w] == Exited
    ensures Held(ws) == multiset{}
  {
    if ws != [] {
      NobodyHolds(ws[..|ws| - 1]);
    }
  }

  /**
   Every run of `n` workers: once all have exited, draining the queue leaves no task unexecuted,
   and each submitted task was executed exactly once.
   */
  lemma {:induction false} NothingLeft(n: nat, es: seq<Event>)
    requires Possible(Initial(n), es)
    requires forall w | 0 <= w < |Run(Initial(n), es).workers| :: Run(Initial(n), es).workers[w] == Exited
    requires Run(Initial(n), es).phase != Running
    ensures var s := Next(Run(Initial(n), es), Drain);
      s.queue == [] && multiset(s.executed) == multiset(seq(s.submitted, i => i))
  {
    hide Initial, Run, Possible;
    InitialConserved(n);
    RunConserves(Initial(n), es);
    Drained(Run(Initial(n), es));
  }

  lemma {:induction false} Drained(s: State)
    requires Conserved(s) && s.phase != Running && forall w | 0 <= w < |s.workers| :: s.workers[w] == Exited
    ensures var s' := Next(s, Drain); s'.queue == [] && multiset(s'.executed) == multiset(seq(s.submitted, i => i))
  {
    hide Ids, Held;
    DrainConserves(s);
    NobodyHolds(s.workers);
    var s' := Next(s, Drain);
    assert s'.queue == [] && s'.workers == s.workers && s'.submitted == s.submitted;
    assert s'.popped + [] == s'.popped;
    hide Next;
    assert multiset(s'.executed) + multiset{} == multiset(s'.executed);
  }

  lemma {:induction false} InitialConserved(n: nat)
    ensures Conserved(Initial(n)) && Supplied(Initial(n))
  {
    NobodyChecks(Initial(n).workers);
  }

  lemma {:induction false} NobodyChecks(ws: seq<Worker>)
    requires forall w | 0 <= w < |ws| :: ws[w] == Checking
    ensures Held(ws) == multiset{}
  {
    if ws != [] {
      NobodyChecks(ws[..|ws| - 1]);
    }
  }

  /** A drain too early strands every worker committed to a pop. */
  lemma DrainStrands(s: State, w: nat)
    requires s.phase == Pushed && w < |s.workers| && s.workers[w] == Waiting
    ensures var s' := Next(s, Drain); s'.workers == s.workers && !Enabled(s', StepOf(s', w))
  {
  }

  lemma Prepend(s: State, e: Event, es: seq<Event>)
    requires Enabled(s, e) && Possible(Next(s, e), es)
    ensures Possible(s, [e] + es) && Run(s, [e] + es) == Run(Next(s, e), es)
  {
    hide Enabled, Next;
    assert ([e] + es)[1..] == es;
  }

  /** And there is such a moment: a worker that looked at the flag before the stop. */
  lemma CommittedAtStop()
    ensures var es := [Check(0)] + ([Flip] + ([Push] + []));
      Possible(Initial(1), es) && Run(Initial(1), es).phase == Pushed && Run(Initial(1), es).workers == [Waiting]
  {
    var s1 := Next(Initial(1), Check(0));
    var s2 := Next(s1, Flip);
    var s3 := Next(s2, Push);
    assert Initial(1).workers == [Checking] && s1.workers == [Waiting] && s3.workers == [Waiting];
    assert s2.phase == Flipped && s3.phase == Pushed;
    assert Enabled(Initial(1), Check(0)) && Enabled(s1, Flip) && Enabled(s2, Push);
    assert Possible(s3, []) && Run(s3, []) == s3;
    hide Enabled, Next, Initial, Possible, Run;
    Prepend(s2, Push, []);
    Prepend(s1, Flip, [Push] + []);
    Prepend(Initial(1), Check(0), [Flip] + ([Push] + []));
  }

  // ------------------------------------------------------------- while the service runs

  /** While the service runs every worker is in its loop. */
  predicate InLoop(s: State) {
    s.phase == Running ==> forall w | 0 <= w < |s.workers| :: s.workers[w] != Exited
  }

  lemma {:induction false} NextInLoop(s: State, e: Event)
    requires InLoop(s) && Enabled(s, e)
    ensures InLoop(Next(s, e)) && |Next(s, e).workers| == |s.workers|
    ensures Next(s, e).phase == Running ==> s.phase == Running
  {
    hide Ids, Empties;
  }

  /** In no run does a worker leave its loop before the stop, or do workers come or go. */
  lemma {:induction false} RunInLoop(s: State, es: seq<Event>)
    requires InLoop(s) && Possible(s, es)
    ensures InLoop(Run(s, es)) && |Run(s, es).workers| == |s.workers|
    decreases es
  {
    if es != [] {
      NextInLoop(s, es[0]);
      var s' := Next(s, es[0]);
      hide InLoop, Next, Enabled;
      RunInLoop(s', es[1..]);
    }
  }

  /** What a worker has still to do before it waits again, while the service runs. */
  function Effort(w: Worker): nat {
    match w
    case Holding(_) => 2
    case Checking => 1
    case _ => 0
  }

  function TotalEffort(ws: seq<Worker>): nat {
    if ws == [] then 0 else TotalEffort(ws[..|ws| - 1]) + Effort(ws[|ws| - 1])
  }

  /** What the workers have still to do: three steps for each task queued, and what they have begun. */
  function Work(s: State): nat {
    3 * |s.queue| + TotalEffort(s.workers)
  }

  lemma {:induction false} ChangeEffort(ws: seq<Worker>, w: nat, x: Worker)
    requires w < |ws|
    ensures TotalEffort(ws[w := x]) == TotalEffort(ws) - Effort(ws[w]) + Effort(x)
  {
    var n := |ws| - 1;
    if w == n {
      assert ws[w := x][..n] == ws[..n];
    } else {
      ChangeEffort(ws[..n], w, x);
      assert ws[w := x][..n] == ws[..n][w := x];
    }
  }

  /** While the service runs, every step of a worker is one step less to do. */
  lemma {:induction false} WorkShrinks(s: State, e: Event)
    requires s.phase == Running && Enabled(s, e) && ByWorker(e)
    ensures Next(s, e).phase == Running && Work(Next(s, e)) == Work(s) - 1 && Next(s, e).submitted == s.submitted
  {
    hide Ids, TotalEffort;
    match e {
      case Check(w) => ChangeEffort(s.workers, w, Waiting);
      case Pop(w) => ChangeEffort(s.workers, w, Holding(s.queue[0]));
      case Execute(w) => ChangeEffort(s.workers, w, Checking);
    }
  }

  /** No worker can take a step. */
  predicate Quiet(s: State) {
    forall w | 0 <= w < |s.workers| :: !Enabled(s, StepOf(s, w))
  }

  /** When no worker can take a step while the service runs, all that was submitted has been executed, once. */
  lemma {:induction false} QuietIsDone(s: State)
    requires Conserved(s) && InLoop(s) && s.phase == Running && s.workers != [] && Quiet(s)
    ensures s.queue == [] && multiset(s.executed) == multiset(seq(s.submitted, i => i))
  {
    hide Ids, Held;
    forall w | 0 <= w < |s.workers| ensures s.workers[w] == Waiting && s.queue == [] {
      assert !Enabled(s, StepOf(s, w));
    }
    assert s.workers[0] == Waiting;
    AllWait(s.workers);
    assert s.popped + [] == s.popped;
    assert multiset(s.executed) + multiset{} == multiset(s.executed);
  }

  lemma {:induction false} AllWait(ws: seq<Worker>)
    requires forall w | 0 <= w < |ws| :: ws[w] == Waiting
    ensures Held(ws) == multiset{}
  {
    if ws != [] {
      AllWait(ws[..|ws| - 1]);
    }
  }

  /**
   Progress, however the workers are scheduled: without a further submission they take exactly as
   many steps as there is work, and no fewer before they have to stop.
   */
  lemma {:induction false} WorkEnds(s: State, es: seq<Event>)
    requires s.phase == Running && Possible(s, es) && forall i | 0 <= i < |es| :: ByWorker(es[i])
    ensures |es| + Work(Run(s, es)) == Work(s)
    ensures Run(s, es).phase == Running && Run(s, es).submitted == s.submitted
    decreases es
  {
    if es != [] {
      assert ByWorker(es[0]);
      WorkShrinks(s, es[0]);
      var s' := Next(s, es[0]);
      hide Next, Enabled, Work, ByWorker;
      WorkEnds(s', es[1..]);
    }
  }

  /** The workers go on until none can take a step. */
  lemma {:induction false} Finish(s: State) returns (es: seq<Event>)
    requires s.phase == Running
    ensures Possible(s, es) && (forall i | 0 <= i < |es| :: ByWorker(es[i])) && Quiet(Run(s, es))
    decreases Work(s)
  {
    hide Next, Work;
    if Quiet(s) {
      es := [];
    } else {
      var w :| 0 <= w < |s.workers| && Enabled(s, StepOf(s, w));
      var e := StepOf(s, w);
      WorkShrinks(s, e);
      var rest := Finish(Next(s, e));
      es := [e] + rest;
      hide Enabled, Quiet, ByWorker;
      Prepend(s, e, rest);
    }
  }

  /**
   From every state of a service that runs with at least one worker, the workers alone can go on
   until every task submitted has been executed once; and wherever they get stuck, that is so.
   */
  lemma {:induction false} RunningProgress(n: nat, es: seq<Event>) returns (more: seq<Event>)
    requires n > 0 && Possible(Initial(n), es) && Run(Initial(n), es).phase == Running
    ensures var s := Run(Initial(n), es);
      && InLoop(s) && |s.workers| == n
      && Possible(s, more) && (forall i | 0 <= i < |more| :: ByWorker(more[i])) && |more| <= Work(s)
      && var s' := Run(s, more);
      s'.queue == [] && s'.submitted == s.submitted && multiset(s'.executed) == multiset(seq(s.submitted, i => i))
  {
    hide Conserved, Possible, Run, InLoop, Quiet, ByWorker, Work;
    InitialConserved(n);
    InitialInLoop(n);
    RunConserves(Initial(n), es);
    RunInLoop(Initial(n), es);
    var s := Run(Initial(n), es);
    more := Finish(s);
    RunConserves(s, more);
    RunInLoop(s, more);
    WorkEnds(s, more);
    QuietIsDone(Run(s, more));
  }

  lemma InitialInLoop(n: nat)
    ensures InLoop(Initial(n)) && |Initial(n).workers| == n
  {
  }

  // ------------------------------------------------------------- what else may happen, and how often

  function PopSteps(es: seq<Event>): nat {
    if es == [] then 0 else (if es[0].Pop? then 1 else 0) + PopSteps(es[1..])
  }

  /** Before the stop only the workers take tasks off the queue, one at a time. */
  lemma {:induction false} OnlyWorkersPop(s: State, es: seq<Event>)
    requires Possible(s, es) && Run(s, es).phase == Running
    ensures s.phase == Running && |Run(s, es).popped| == |s.popped| + PopSteps(es)
    decreases es
  {
    hide Ids, Empties;
    if es != [] {
      OnlyWorkersPop(Next(s, es[0]), es[1..]);
    }
  }

  /** How many empty tasks there are. */
  function EmptyCount(ts: seq<Task>): nat {
    if ts == [] then 0 else EmptyCount(ts[..|ts| - 1]) + if ts[|ts| - 1] == Empty then 1 else 0
  }

  lemma {:induction false} EmptyCountAppend(a: seq<Task>, b: seq<Task>)
    ensures EmptyCount(a + b) == EmptyCount(a) + EmptyCount(b)
  {
    if b == [] {
      assert a + b == a;
    } else {
      var n := |b| - 1;
      EmptyCountAppend(a, b[..n]);
      assert (a + b)[..|a + b| - 1] == a + b[..n];
    }
  }

  lemma {:induction false} EmptiesCounted(n: nat)
    ensures EmptyCount(Empties(n)) == n
  {
    if n > 0 {
      EmptiesCounted(n - 1);
      assert Empties(n)[..n - 1] == Empties(n - 1);
    }
  }

  /** One empty task was queued for each worker if the stop is complete, and none otherwise. */
  predicate StoppedOnce(s: State) {
    EmptyCount(s.pushed) == if s.phase == Pushed then |s.workers| else 0
  }

  lemma {:induction false} NextStoppedOnce(s: State, e: Event)
    requires StoppedOnce(s) && Enabled(s, e)
    ensures StoppedOnce(Next(s, e))
  {
    hide Ids, Empties, EmptyCount;
    match e {
      case Submit =>
        EmptyCountAppend(s.pushed, [Task(s.submitted)]);
        NoneEmpty(s.submitted);
      case Push =>
        EmptyCountAppend(s.pushed, Empties(|s.workers|));
        EmptiesCounted(|s.workers|);
      case _ =>
    }
  }

  lemma NoneEmpty(id: nat)
    ensures EmptyCount([Task(id)]) == 0
  {
  }

  lemma {:induction false} RunStoppedOnce(s: State, es: seq<Event>)
    requires StoppedOnce(s) && Possible(s, es)
    ensures StoppedOnce(Run(s, es))
    decreases es
  {
    if es != [] {
      NextStoppedOnce(s, es[0]);
      var s' := Next(s, es[0]);
      hide StoppedOnce, Next, Enabled;
      RunStoppedOnce(s', es[1..]);
    }
  }

  /** However often `stop` is called, each of the n workers is sent one empty task. */
  lemma {:induction false} StopsOnce(n: nat, es: seq<Event>)
    requires Possible(Initial(n), es)
    ensures var s := Run(Initial(n), es);
      EmptyCount(s.pushed) == if s.phase == Pushed then n else 0
  {
    RunStoppedOnce(Initial(n), es);
    RunInLoop(Initial(n), es);
  }

  // ------------------------------------------------------------- the order of execution

  /** A single worker has executed what was popped, but for the task in its hand, in that order. */
  predicate InOrder(s: State) {
    |s.workers| == 1 && s.executed + InHand(s) == Ids(s.popped)
  }

  function InHand(s: State): (r: seq<nat>)
    requires |s.workers| == 1
  {
    if s.workers[0].Holding? then Ids([s.workers[0].task]) else []
  }

  /** A drain passes over the task in the worker's hand. */
  predicate Overtakes(s: State, e: Event)
    requires |s.workers| == 1
  {
    e == Drain && s.phase != Running && InHand(s) != [] && Ids(s.queue) != []
  }

  /** The one step of a single worker's service that breaks the order of submission. */
  lemma {:induction false} OrderExact(s: State, e: Event)
    requires Conserved(s) && InOrder(s) && Enabled(s, e)
    ensures InOrder(Next(s, e)) <==> !Overtakes(s, e)
  {
    hide Conserved, Empties;
    match e {
      case Pop(w) => PopOrder(s);
      case Execute(w) => hide Ids;
      case Drain => DrainOrder(s);
      case _ => hide Ids;
    }
  }

  lemma PopOrder(s: State)
    requires InOrder(s) && Enabled(s, Pop(0))
    ensures InOrder(Next(s, Pop(0)))
  {
    hide Ids;
    IdsAppend(s.popped, [s.queue[0]]);
    assert s.executed + [] == s.executed;
  }

  lemma {:induction false} DrainOrder(s: State)
    requires Conserved(s) && InOrder(s)
    ensures InOrder(Next(s, Drain)) <==> !Overtakes(s, Drain)
  {
    if s.phase != Running {
      IdsAppend(s.popped, s.queue);
      HandThenQueue(s);
      hide Ids, Conserved;
      SwapExact(s.executed, InHand(s), Ids(s.queue));
    }
  }

  /** The task in the hand is not in the queue too. */
  lemma HandThenQueue(s: State)
    requires Conserved(s) && InOrder(s)
    ensures |InHand(s)| <= 1 && (InHand(s) != [] ==> InHand(s)[0] !in Ids(s.queue))
  {
    IdsAppend(s.popped, s.queue);
    var all := seq(s.submitted, i => i);
    assert s.executed + InHand(s) + Ids(s.queue) == all;
    assert |InHand(s)| <= 1 by { if s.workers[0].Holding? { OneOrNone(s.workers[0].task); } }
    hide Ids, Conserved, InOrder;
    var k, h, q := |s.executed|, InHand(s), Ids(s.queue);
    if h != [] {
      assert all[k] == h[0];
      forall i | 0 <= i < |q| ensures q[i] != h[0] {
        assert all[k + 1 + i] == q[i];
      }
    }
  }

  lemma OneOrNone(t: Task)
    ensures |Ids([t])| <= 1
  {
  }

  lemma SwapExact(a: seq<nat>, h: seq<nat>, q: seq<nat>)
    requires |h| <= 1 && (h != [] ==> h[0] !in q)
    ensures a + q + h == a + h + q <==> h == [] || q == []
  {
    if h == [] || q == [] {
      assert a + q + h == a + h + q;
    } else {
      assert (a + q + h)[|a|] == q[0] && (a + h + q)[|a|] == h[0];
    }
  }

  predicate NeverOvertakes(s: State, es: seq<Event>)
    requires |s.workers| == 1 && Possible(s, es)
    decreases es
  {
    es == [] || (!Overtakes(s, es[0]) && NeverOvertakes(Next(s, es[0]), es[1..]))
  }

  lemma {:induction false} RunInOrder(s: State, es: seq<Event>)
    requires Conserved(s) && InOrder(s) && Possible(s, es) && NeverOvertakes(s, es)
    ensures Conserved(Run(s, es)) && InOrder(Run(s, es))
    decreases es
  {
    if es != [] {
      Conserves(s, es[0]);
      OrderExact(s, es[0]);
      var s' := Next(s, es[0]);
      hide Conserved, InOrder, Next, Overtakes, Enabled;
      RunInOrder(s', es[1..]);
    }
  }

  /** With one worker and no drain over its head, tasks are executed in the order they were submitted. */
  lemma {:induction false} OneWorkerInOrder(es: seq<Event>)
    requires Possible(Initial(1), es) && NeverOvertakes(Initial(1), es)
    ensures var s := Run(Initial(1), es); s.executed <= seq(s.submitted, i => i)
  {
    InitialConserved(1);
    RunInOrder(Initial(1), es);
    var s := Run(Initial(1), es);
    hide Run, Possible, NeverOvertakes;
    IdsAppend(s.popped, s.queue);
    hide Ids;
    assert s.executed + InHand(s) + Ids(s.queue) == seq(s.submitted, i => i);
    assert s.executed <= s.executed + InHand(s) + Ids(s.queue);
  }

  // ------------------------------------------------------------- the service

  /** The shared state of the service, its methods cut where threads can interleave. */
  class DataBaseService {
    var queue: seq<Task>
    var running: bool
    var workers: seq<Worker>
    var executed: seq<nat>
    var submitted: nat

    ghost var s: State

    ghost predicate Valid()
      reads this
    {
      Shows(s, queue, running, workers, executed, submitted) && Conserved(s)
    }

    constructor (threads: nat)
      ensures Valid() && s == Initial(threads)
    {
      queue, running, workers, executed, submitted := [], true, seq(threads, i => Checking), [], 0;
      s := Initial(threads);
      InitialConserved(threads);
      hide Conserved;
    }

    method AsyncSubmit()
      requires Valid()
      modifies this
      ensures Valid() && s == Next(old(s), Submit)
    {
      hide Conserved;
      SubmitConserves(s);
      ghost var s' := Next(s, Submit);
      var q := queue + [Task(submitted)];
      assert Shows(s', q, running, workers, executed, submitted + 1);
      hide Next, Shows;
      queue, submitted, s := q, submitted + 1, s';
    }

    /** The test of the loop in `run`. */
    method TestRunning(w: nat)
      requires Valid() && Enabled(s, Check(w))
      modifies this
      ensures Valid() && s == Next(old(s), Check(w))
    {
      hide Conserved;
      Conserves(s, Check(w));
      ghost var s' := Next(s, Check(w));
      var ws := workers[w := if running then Waiting else Exited];
      assert Shows(s', queue, running, ws, executed, submitted);
      hide Next, Shows;
      workers, s := ws, s';
    }

    /** The wait for a task and the pop, in one hold of the lock. */
    method PopTask(w: nat)
      requires Valid() && Enabled(s, Pop(w))
      modifies this
      ensures Valid() && s == Next(old(s), Pop(w))
    {
      hide Conserved, Next;
      PopNext(s, w);
      ghost var s' := Next(s, Pop(w));
      assert w < |workers| && queue != [];
      hide Enabled;
      var ws, q := workers[w := Holding(queue[0])], queue[1..];
      assert Shows(s', q, running, ws, executed, submitted);
      hide Shows;
      workers, queue, s := ws, q, s';
    }

    method ExecuteTask(w: nat)
      requires Valid() && Enabled(s, Execute(w))
      modifies this
      ensures Valid() && s == Next(old(s), Execute(w))
    {
      hide Conserved;
      ExecuteConserves(s, w);
      ExecuteOne(workers[w].task);
      ghost var s' := Next(s, Execute(w));
      var task, ws := workers[w].task, workers[w := Checking];
      var log := if task.Task? then executed + [task.id] else executed;
      assert Shows(s', queue, running, ws, log, submitted);
      hide Next, Shows;
      workers, executed, s := ws, log, s';
    }

    /** The first half of `stop`; the second follows only for the caller who found the service running. */
    method StopFlag() returns (first: bool)
      requires Valid()
      modifies this
      ensures Valid() && s == Next(old(s), Flip) && first == (old(s).phase == Running)
    {
      hide Conserved;
      Conserves(s, Flip);
      ghost var s' := Next(s, Flip);
      assert Shows(s', queue, false, workers, executed, submitted);
      hide Next, Shows;
      first := running;
      running, s := false, s';
    }

    /** The second half: an empty task for each thread. */
    method StopPush()
      requires Valid() && Enabled(s, Push)
      modifies this
      ensures Valid() && s == Next(old(s), Push)
    {
      hide Conserved, Next, Empties;
      PushNext(s);
      ghost var s' := Next(s, Push);
      assert Shows(s', queue + Empties(|workers|), running, workers, executed, submitted);
      hide Shows;
      PushEmpties();
      s := s';
    }

    method PushEmpties()
      modifies this`queue
      ensures queue == old(queue) + Empties(|workers|)
    {
      var i := 0;
      while i != |workers|
        invariant 0 <= i <= |workers| && queue == old(queue) + Empties(i)
      {
        assert Empties(i + 1) == Empties(i) + [Empty];
        queue := queue + [Empty];
        i := i + 1;
      }
    }

    /** `executeRemainTask`, which holds the lock throughout. */
    method ExecuteRemainTask()
      requires Valid()
      modifies this
      ensures Valid() && s == Next(old(s), Drain)
    {
      hide Conserved, Ids;
      if running {
        return;
      }
      DrainNext(s);
      ghost var s' := Next(s, Drain);
      assert Shows(s', [], running, workers, executed + Ids(queue), submitted);
      hide Next, Shows;
      PopAll();
      s := s';
    }

    method PopAll()
      modifies this`queue, this`executed
      ensures queue == [] && executed == old(executed) + Ids(old(queue))
    {
      hide Ids;
      ghost var q, k := queue, 0;
      AllPopped(q, 0);
      while queue != []
        invariant k <= |q| && queue == q[k..] && executed == old(executed) + Ids(q[..k])
        decreases |q| - k
      {
        AllPopped(q, k);
        var task := queue[0];
        queue := queue[1..];
        if task.Task? {
          executed := executed + [task.id];
        }
        k := k + 1;
      }
    }
  }

  /** The fields of the service are those of the state. */
  ghost predicate Shows(s: State, queue: seq<Task>, running: bool, workers: seq<Worker>, executed: seq<nat>, submitted: nat) {
    && queue == s.queue && running == (s.phase == Running) && workers == s.workers
    && executed == s.executed && submitted == s.submitted
  }

  lemma PopNext(s: State, w: nat)
    requires Conserved(s) && Enabled(s, Pop(w))
    ensures Conserved(Next(s, Pop(w)))
    ensures Shows(Next(s, Pop(w)), s.queue[1..], s.phase == Running, s.workers[w := Holding(s.queue[0])], s.executed, s.submitted)
  {
    hide Conserved;
    PopConserves(s, w);
  }

  lemma PushNext(s: State)
    requires Conserved(s) && Enabled(s, Push)
    ensures Conserved(Next(s, Push))
    ensures Shows(Next(s, Push), s.queue + Empties(|s.workers|), false, s.workers, s.executed, s.submitted)
  {
    hide Conserved;
    PushConserves(s);
  }

  lemma DrainNext(s: State)
    requires Conserved(s) && s.phase != Running
    ensures Conserved(Next(s, Drain))
    ensures Shows(Next(s, Drain), [], false, s.workers, s.executed + Ids(s.queue), s.submitted)
  {
    hide Conserved;
    DrainConserves(s);
  }

  lemma {:induction false} AllPopped(q: seq<Task>, k: nat)
    requires k <= |q|
    ensures Ids(q[..0]) == [] && q[..|q|] == q && q[0..] == q && q[|q|..] == []
    ensures k < |q| ==> q[k..][1..] == q[k + 1..] && q[k..][0] == q[k]
    ensures k < |q| ==> Ids(q[..k + 1]) == Ids(q[..k]) + if q[k].Task? then [q[k].id] else []
  {
    if k < |q| {
      assert q[..k + 1][..k] == q[..k];
    }
  }

  lemma ExecuteOne(t: Task)
    ensures Ids([t]) == if t.Task? then [t.id] else []
  {
  }
}
