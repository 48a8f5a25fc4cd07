/**
 * The bounded response parser of the Java adapter (BoundedParser.java) as a
 * protocol: every interleaving of concurrent `parse` calls, pool threads,
 * timeouts and one `close`, one shared-memory action at a time.
 */
module ParserPool {
  import Collections

  /** Where a caller of `parse` stands once it holds a permit. */
  datatype Caller =
    | Acquired    // the permit is taken
    | Registered  // the task is in the `tasks` map
    | Checked     // `execute` saw a running pool
    | Offered     // the task was handed over; `execute` checks the pool again
    | Waiting     // `execute` returned; the caller waits for the result
    | Cancelling  // the wait failed; the task is about to be cancelled
    | Refused     // `execute` rejected the task
    | Returned    // a refused task's permit was given back
    | Done

  /** Where the task stands in the pool. */
  datatype Work =
    | Unsubmitted
    | Queued
    | Taken      // a pool thread has it
    | Executing  // its callable runs
    | Finished   // `work.run()` has returned
    | Released   // the permit was given back
    | Completed  // the result was completed
    | Removed    // the task left the `tasks` map
    | Dropped    // drained from the queue by `shutdownNow`

  datatype Call = Call(caller: Caller, work: Work, cancelled: bool, answered: bool, releases: nat)

  /** How far `close` has come. While it visits, `left` is what it must still visit. */
  datatype Closing = Open | Stopped | Drained | Visiting(left: set<nat>) | Visited | Cleared

  datatype State = State(free: int, calls: map<nat, Call>, tasks: set<nat>, closing: Closing)

  datatype Event =
    | Acquire(id: nat)
    | Register(id: nat)
    | Check(id: nat)
    | HandToThread(id: nat)
    | Enqueue(id: nat)
    | RefuseFull(id: nat)
    | RefuseStopped(id: nat)
    | Withdraw(id: nat)
    | Submitted(id: nat)
    | GiveBack(id: nat)
    | Unregister(id: nat)
    | Take(id: nat)
    | Begin(id: nat)
    | SkipCancelled(id: nat)
    | FinishCallable(id: nat)
    | Release(id: nat)
    | Complete(id: nat)
    | Remove(id: nat)
    | GetResult(id: nat)
    | WaitFails(id: nat)
    | Cancel(id: nat)
    | Stop
    | Drain
    | StartVisit
    | Visit(id: nat)
    | EndVisit
    | ClearTasks

  ghost function Queue(st: State): set<nat> { set id | id in st.calls && st.calls[id].work == Queued }

  /** Calls whose permit was not given back. */
  ghost function Holding(st: State): set<nat> { set id | id in st.calls && st.calls[id].releases == 0 }

  predicate AtCaller(st: State, id: nat, c: Caller) { id in st.calls && st.calls[id].caller == c }

  predicate AtWork(st: State, id: nat, w: Work) { id in st.calls && st.calls[id].work == w }

  /** When an action can happen; the queue holds as many tasks as there are workers. */
  ghost predicate Enabled(workers: nat, st: State, e: Event) {
    match e
    case Acquire(id) => id !in st.calls && st.free > 0
    case Register(id) => AtCaller(st, id, Acquired)
    case Check(id) => AtCaller(st, id, Registered) && st.closing == Open
    case RefuseStopped(id) => (AtCaller(st, id, Registered) || AtCaller(st, id, Checked)) && st.closing != Open
    case HandToThread(id) => AtCaller(st, id, Checked)
    case Enqueue(id) => AtCaller(st, id, Checked) && |Queue(st)| < workers
    case RefuseFull(id) => AtCaller(st, id, Checked) && |Queue(st)| >= workers
    case Withdraw(id) => AtCaller(st, id, Offered) && AtWork(st, id, Queued) && st.closing != Open
    case Submitted(id) => AtCaller(st, id, Offered) && !(AtWork(st, id, Queued) && st.closing != Open)
    case GiveBack(id) => AtCaller(st, id, Refused)
    case Unregister(id) => AtCaller(st, id, Returned)
    case Take(id) => AtWork(st, id, Queued)
    case Begin(id) => AtWork(st, id, Taken) && !st.calls[id].cancelled
    case SkipCancelled(id) => AtWork(st, id, Taken) && st.calls[id].cancelled
    case FinishCallable(id) => AtWork(st, id, Executing)
    case Release(id) => AtWork(st, id, Finished)
    case Complete(id) => AtWork(st, id, Released)
    case Remove(id) => AtWork(st, id, Completed)
    case GetResult(id) => AtCaller(st, id, Waiting) && st.calls[id].answered
    case WaitFails(id) => AtCaller(st, id, Waiting)
    case Cancel(id) => AtCaller(st, id, Cancelling)
    case Stop => st.closing == Open
    case Drain => st.closing == Stopped
    case StartVisit => st.closing == Drained
    case Visit(id) => st.closing.Visiting? && id in st.tasks
    case EndVisit => st.closing.Visiting? && st.closing.left * st.tasks == {}
    case ClearTasks => st.closing == Visited
  }

  function SetCaller(st: State, id: nat, c: Caller): State
    requires id in st.calls
  {
    st.(calls := st.calls[id := st.calls[id].(caller := c)])
  }

  function SetWork(st: State, id: nat, w: Work): State
    requires id in st.calls
  {
    st.(calls := st.calls[id := st.calls[id].(work := w)])
  }

  function GivePermit(st: State, id: nat): State
    requires id in st.calls
  {
    st.(free := st.free + 1, calls := st.calls[id := st.calls[id].(releases := st.calls[id].releases + 1)])
  }

  function Answer(st: State, id: nat): State
    requires id in st.calls
  {
    st.(calls := st.calls[id := st.calls[id].(answered := true)])
  }

  function CancelWork(st: State, id: nat): State
    requires id in st.calls
  {
    st.(calls := st.calls[id := st.calls[id].(cancelled := true)])
  }

  function Drop(c: Call): Call { if c.work == Queued then c.(work := Dropped) else c }

  ghost function Apply(workers: nat, st: State, e: Event): State
    requires Enabled(workers, st, e)
  {
    match e
    case Acquire(id) => st.(free := st.free - 1, calls := st.calls[id := Call(Acquired, Unsubmitted, false, false, 0)])
    case Register(id) => SetCaller(st, id, Registered).(tasks := st.tasks + {id})
    case Check(id) => SetCaller(st, id, Checked)
    case RefuseStopped(id) => SetCaller(st, id, Refused)
    case HandToThread(id) => SetWork(SetCaller(st, id, Offered), id, Taken)
    case Enqueue(id) => SetWork(SetCaller(st, id, Offered), id, Queued)
    case RefuseFull(id) => SetCaller(st, id, Refused)
    case Withdraw(id) => SetWork(SetCaller(st, id, Refused), id, Unsubmitted)
    case Submitted(id) => SetCaller(st, id, Waiting)
    case GiveBack(id) => GivePermit(CancelWork(SetCaller(st, id, Returned), id), id)
    case Unregister(id) => SetCaller(st, id, Done).(tasks := st.tasks - {id})
    case Take(id) => SetWork(st, id, Taken)
    case Begin(id) => SetWork(st, id, Executing)
    case SkipCancelled(id) => SetWork(st, id, Finished)
    case FinishCallable(id) => SetWork(st, id, Finished)
    case Release(id) => GivePermit(SetWork(st, id, Released), id)
    case Complete(id) => Answer(SetWork(st, id, Completed), id)
    case Remove(id) => SetWork(st, id, Removed).(tasks := st.tasks - {id})
    case GetResult(id) => SetCaller(st, id, Done)
    case WaitFails(id) => SetCaller(st, id, Cancelling)
    case Cancel(id) => CancelWork(SetCaller(st, id, Done), id)
    case Stop => st.(closing := Stopped)
    case Drain => st.(closing := Drained, calls := map id | id in st.calls :: Drop(st.calls[id]))
    case StartVisit => st.(closing := Visiting(st.tasks))
    case Visit(id) =>
      if id in st.calls then Answer(CancelWork(st, id), id).(closing := Visiting(st.closing.left - {id})) else st
    case EndVisit => st.(closing := Visited)
    case ClearTasks => st.(closing := Cleared, tasks := {})
  }

  ghost function Initial(workers: nat): State { State(workers, map[], {}, Open) }

  // ----- The invariant -----

  /** How caller, task and permit of one call fit together. */
  predicate Consistent(c: Call) {
    && (c.caller in {Acquired, Registered, Checked, Refused} ==> c.work == Unsubmitted && c.releases == 0)
    && (c.caller == Returned ==> c.work == Unsubmitted && c.releases == 1)
    && (c.caller == Done && c.work == Unsubmitted ==> c.releases == 1)
    && (c.caller in {Offered, Waiting, Cancelling} ==> c.work != Unsubmitted)
    && (c.work in {Queued, Taken, Executing, Finished, Dropped} ==> c.releases == 0)
    && (c.work in {Released, Completed, Removed} ==> c.releases == 1)
    && (c.work in {Completed, Removed} ==> c.answered)
  }

  /** A call whose caller waits, or will wait, for a result nobody has given yet. */
  predicate Owed(c: Call) { c.caller in {Checked, Offered, Waiting} && !c.answered }

  ghost predicate Permits(workers: nat, st: State) { st.free >= 0 && st.free + |Holding(st)| == workers }

  ghost predicate Shapes(st: State) { forall id :: id in st.calls ==> Consistent(st.calls[id]) }

  /** Whoever is owed a result is registered, and `close` will reach it. */
  ghost predicate Promises(st: State) {
    && st.tasks <= st.calls.Keys
    && (forall id :: id in st.calls && Owed(st.calls[id]) ==> Reachable(st, id))
    && (st.closing == Open ==> forall id :: id in st.calls && st.calls[id].caller == Registered ==> id in st.tasks)
    && (st.closing == Open || st.closing == Stopped ==> forall id :: id in st.calls ==> st.calls[id].work != Dropped)
  }

  ghost predicate Reachable(st: State, id: nat) {
    id in st.tasks && !st.closing.Visited? && !st.closing.Cleared? && (st.closing.Visiting? ==> id in st.closing.left)
  }

  ghost predicate Inv(workers: nat, st: State) { Permits(workers, st) && Shapes(st) && Promises(st) }

  /** What a step that changes only call `id` must respect. */
  ghost predicate Changed(st: State, st': State, id: nat, c: Call) {
    && st'.calls == st.calls[id := c] && st'.closing == st.closing
    && st.tasks - {id} <= st'.tasks <= st.tasks + {id}
    && Consistent(c)
    && (Owed(c) || c.caller == Registered ==> id in st'.tasks)
    && (Owed(c) ==> (id in st.calls && Owed(st.calls[id])) || st.closing == Open)
    && (c.work == Dropped ==> id in st.calls && st.calls[id].work == Dropped)
  }

  lemma ChangedKeeps(st: State, st': State, id: nat, c: Call)
    requires Shapes(st) && Promises(st) && Changed(st, st', id, c)
    ensures Shapes(st') && Promises(st')
  {}

  /** A step that changes one call and keeps its permit. */
  lemma PermitKept(workers: nat, st: State, st': State, id: nat, c: Call)
    requires Permits(workers, st) && id in st.calls && c.releases == st.calls[id].releases
    requires st'.calls == st.calls[id := c] && st'.free == st.free
    ensures Permits(workers, st')
  {
    assert Holding(st') == Holding(st);
  }

  /** A step that gives the permit of one call back. */
  lemma PermitGiven(workers: nat, st: State, st': State, id: nat, c: Call)
    requires Permits(workers, st) && id in st.calls && st.calls[id].releases == 0 && c.releases == 1
    requires st'.calls == st.calls[id := c] && st'.free == st.free + 1
    ensures Permits(workers, st')
  {
    assert id in Holding(st);
    assert Holding(st') == Holding(st) - {id};
  }

  lemma PermitTaken(workers: nat, st: State, st': State, id: nat, c: Call)
    requires Permits(workers, st) && id !in st.calls && c.releases == 0 && st.free > 0
    requires st'.calls == st.calls[id := c] && st'.free == st.free - 1
    ensures Permits(workers, st')
  {
    assert Holding(st') == Holding(st) + {id} && id !in Holding(st);
  }

  lemma DrainKeeps(workers: nat, st: State)
    requires Inv(workers, st) && st.closing == Stopped
    ensures Inv(workers, Apply(workers, st, Drain))
  {
    var st' := Apply(workers, st, Drain);
    assert st'.calls.Keys == st.calls.Keys;
    assert Holding(st') == Holding(st);
  }

  /** A step of `close` that changes no call. */
  lemma SameCalls(workers: nat, st: State, st': State)
    requires Inv(workers, st) && st'.calls == st.calls && st'.free == st.free && st'.tasks <= st.tasks
    requires forall id :: id in st.calls && Owed(st.calls[id]) ==> Reachable(st', id)
    requires st'.closing != Open && (st'.closing == Stopped ==> st.closing == Open)
    ensures Inv(workers, st')
  {
    assert Holding(st') == Holding(st);
  }

  lemma VisitKeeps(workers: nat, st: State, id: nat)
    requires Inv(workers, st) && st.closing.Visiting? && id in st.tasks
    ensures Inv(workers, Apply(workers, st, Visit(id)))
  {
    var marked := Answer(CancelWork(st, id), id);
    MarkKeeps(workers, st, id);
    hide Permits, Shapes, Holding, Consistent;
    SameCalls(workers, marked, Apply(workers, st, Visit(id)));
  }

  lemma MarkKeeps(workers: nat, st: State, id: nat)
    requires Inv(workers, st) && id in st.tasks
    ensures var marked := Answer(CancelWork(st, id), id); Inv(workers, marked) && !Owed(marked.calls[id])
  {
    var marked := Answer(CancelWork(st, id), id);
    hide Holding;
    PermitKept(workers, st, marked, id, marked.calls[id]);
    assert Changed(st, marked, id, marked.calls[id]) by { hide Permits; }
    hide Consistent, Changed;
    ChangedKeeps(st, marked, id, marked.calls[id]);
  }

  predicate SubmitEvent(e: Event) {
    e.Acquire? || e.Register? || e.Check? || e.HandToThread? || e.Enqueue? || e.Submitted?
  }

  predicate RefusalEvent(e: Event) {
    e.RefuseStopped? || e.RefuseFull? || e.Withdraw? || e.GiveBack? || e.Unregister?
  }

  predicate ResultEvent(e: Event) { e.GetResult? || e.WaitFails? || e.Cancel? }

  predicate StartEvent(e: Event) { e.Take? || e.Begin? || e.SkipCancelled? || e.FinishCallable? }

  predicate FinishEvent(e: Event) { e.Release? || e.Complete? || e.Remove? }

  predicate CallEvent(e: Event) {
    SubmitEvent(e) || RefusalEvent(e) || ResultEvent(e) || StartEvent(e) || FinishEvent(e)
  }

  /** What a step of a caller does to its call on the way in. */
  lemma SubmitChanges(workers: nat, st: State, e: Event)
    requires Shapes(st) && Promises(st) && SubmitEvent(e) && Enabled(workers, st, e)
    ensures var st' := Apply(workers, st, e); e.id in st'.calls && Changed(st, st', e.id, st'.calls[e.id])
  {
    hide Queue;
  }

  /** What a step of a refused caller does to its call. */
  lemma RefusalChanges(workers: nat, st: State, e: Event)
    requires Shapes(st) && Promises(st) && RefusalEvent(e) && Enabled(workers, st, e)
    ensures var st' := Apply(workers, st, e); e.id in st'.calls && Changed(st, st', e.id, st'.calls[e.id])
  {
    hide Queue;
  }

  /** What a step of a caller with a result, or done waiting, does to its call. */
  lemma ResultChanges(workers: nat, st: State, e: Event)
    requires Shapes(st) && Promises(st) && ResultEvent(e) && Enabled(workers, st, e)
    ensures var st' := Apply(workers, st, e); e.id in st'.calls && Changed(st, st', e.id, st'.calls[e.id])
  {
    hide Queue;
  }

  /** What a step of a pool thread up to the end of the callable does to its call. */
  lemma StartChanges(workers: nat, st: State, e: Event)
    requires Shapes(st) && Promises(st) && StartEvent(e) && Enabled(workers, st, e)
    ensures var st' := Apply(workers, st, e); e.id in st'.calls && Changed(st, st', e.id, st'.calls[e.id])
  {
    hide Queue;
  }

  /** What a step of a pool thread behind the callable does to its call. */
  lemma FinishChanges(workers: nat, st: State, e: Event)
    requires Shapes(st) && Promises(st) && FinishEvent(e) && Enabled(workers, st, e)
    ensures var st' := Apply(workers, st, e); e.id in st'.calls && Changed(st, st', e.id, st'.calls[e.id])
  {
    hide Queue;
  }

  lemma StepPermit(workers: nat, st: State, e: Event)
    requires Permits(workers, st) && Shapes(st) && Enabled(workers, st, e)
    requires CallEvent(e)
    ensures Permits(workers, Apply(workers, st, e))
  {
    hide Holding, Queue, Permits;
    var st' := Apply(workers, st, e);
    if e.Acquire? {
      FreePermit(workers, st);
      PermitTaken(workers, st, st', e.id, st'.calls[e.id]);
    } else if e.GiveBack? || e.Release? {
      PermitGiven(workers, st, st', e.id, st'.calls[e.id]);
    } else {
      PermitKept(workers, st, st', e.id, st'.calls[e.id]);
    }
  }

  lemma FreePermit(workers: nat, st: State)
    requires Permits(workers, st)
    ensures st.free >= 0
  {}

  /** Every action of every thread keeps the invariant. */
  lemma StepKeeps(workers: nat, st: State, e: Event)
    requires Inv(workers, st) && Enabled(workers, st, e)
    ensures Inv(workers, Apply(workers, st, e))
  {
    hide Holding, Queue, Permits, Shapes, Changed;
    var st' := Apply(workers, st, e);
    match e
    case Drain => DrainKeeps(workers, st);
    case Visit(id) => VisitKeeps(workers, st, id);
    case Stop => SameCalls(workers, st, st');
    case StartVisit => SameCalls(workers, st, st');
    case EndVisit =>
      assert forall id :: id in st.closing.left && id in st.tasks ==> id in st.closing.left * st.tasks;
      SameCalls(workers, st, st');
    case ClearTasks => SameCalls(workers, st, st');
    case _ =>
      StepPermit(workers, st, e);
      if SubmitEvent(e) {
        SubmitChanges(workers, st, e);
      } else if RefusalEvent(e) {
        RefusalChanges(workers, st, e);
      } else if ResultEvent(e) {
        ResultChanges(workers, st, e);
      } else if StartEvent(e) {
        StartChanges(workers, st, e);
      } else {
        FinishChanges(workers, st, e);
      }
      ChangedKeeps(st, st', e.id, st'.calls[e.id]);
  }

  // ----- Every interleaving -----

  /** The state after some events, from a fresh parser; nothing when one of them could not happen. */
  ghost predicate Reaches(workers: nat, events: seq<Event>, st: State)
    decreases |events|
  {
    if events == [] then st == Initial(workers)
    else
      var earlier, e := events[..|events| - 1], events[|events| - 1];
      exists before ::
        Reaches(workers, earlier, before) && Enabled(workers, before, e) && st == Apply(workers, before, e)
  }

  lemma {:induction false} ReachableInv(workers: nat, events: seq<Event>, st: State)
    requires Reaches(workers, events, st)
    ensures Inv(workers, st)
    decreases |events|
  {
    hide Inv, Enabled;
    if events == [] {
      InitialInv(workers);
    } else {
      var earlier, e := events[..|events| - 1], events[|events| - 1];
      var before :| Reaches(workers, earlier, before) && Enabled(workers, before, e) && st == Apply(workers, before, e);
      ReachableInv(workers, earlier, before);
      StepKeeps(workers, before, e);
    }
  }

  lemma InitialInv(workers: nat)
    ensures Inv(workers, Initial(workers))
  {
    assert Holding(Initial(workers)) == {};
  }

  /** Free permits and calls that hold one always make up the workers; no permit is given back twice. */
  lemma PermitsConserved(workers: nat, events: seq<Event>, st: State)
    requires Reaches(workers, events, st)
    ensures 0 <= st.free && st.free + |Holding(st)| == workers
    ensures forall id :: id in st.calls ==> st.calls[id].releases <= 1
  {
    ReachableInv(workers, events, st);
  }

  /** While the parser is open, a permit is held exactly by work that was admitted and has not ended. */
  lemma HoldersBeforeClose(workers: nat, events: seq<Event>, st: State, id: nat)
    requires Reaches(workers, events, st) && st.closing == Open && id in st.calls
    ensures id in Holding(st) <==>
      (st.calls[id].work in {Queued, Taken, Executing, Finished}
       || (st.calls[id].work == Unsubmitted && st.calls[id].caller in {Acquired, Registered, Checked, Refused}))
  {
    ReachableInv(workers, events, st);
  }

  /** A running callable holds its permit, whether or not its caller has given up. */
  lemma RunningHoldsPermit(workers: nat, events: seq<Event>, st: State, id: nat)
    requires Reaches(workers, events, st) && AtWork(st, id, Executing)
    ensures id in Holding(st) && |Running(st)| <= workers - st.free
  {
    hide Reaches;
    ReachableInv(workers, events, st);
    assert Running(st) <= Holding(st);
    hide Running, Holding;
    Collections.SubsetSize(Running(st), Holding(st));
  }

  ghost function Running(st: State): set<nat> { set id | id in st.calls && st.calls[id].work == Executing }

  /** A caller on its way in holds a permit, and so do all queued tasks. */
  lemma QueueLeavesRoom(workers: nat, st: State, id: nat)
    requires Permits(workers, st) && Shapes(st) && AtCaller(st, id, Checked)
    ensures |Queue(st)| < workers
  {
    assert id !in Queue(st) && Queue(st) + {id} <= Holding(st);
    hide Queue, Holding, Shapes;
    Collections.SubsetSize(Queue(st) + {id}, Holding(st));
  }

  /** The queue is never full when an admitted task is offered. */
  lemma NeverRefusedFull(workers: nat, events: seq<Event>, st: State, id: nat)
    requires Reaches(workers, events, st)
    ensures !Enabled(workers, st, RefuseFull(id))
  {
    if AtCaller(st, id, Checked) {
      ReachableInv(workers, events, st);
      hide Permits, Promises, Shapes, Reaches, Queue;
      QueueLeavesRoom(workers, st, id);
    }
  }

  /** Once `close` has visited the tasks, every caller still waiting has its result. */
  lemma NobodyLeftWaiting(workers: nat, events: seq<Event>, st: State, id: nat)
    requires Reaches(workers, events, st) && (st.closing == Visited || st.closing == Cleared)
    requires AtCaller(st, id, Waiting)
    ensures Enabled(workers, st, GetResult(id))
  {
    ReachableInv(workers, events, st);
  }

  /**
   * A permit is lost only by a task that `close` drained: any other call that
   * holds one has an action of its own thread or task still to come.
   */
  lemma HolderCanMove(workers: nat, events: seq<Event>, st: State, id: nat)
    requires Reaches(workers, events, st) && id in Holding(st) && st.calls[id].work != Dropped
    ensures exists e ::
      e in {Register(id), Check(id), RefuseStopped(id), HandToThread(id), Take(id), Begin(id), SkipCancelled(id),
            FinishCallable(id), Release(id), GiveBack(id)} && Enabled(workers, st, e)
  {
    ReachableInv(workers, events, st);
    var c := st.calls[id];
    var e :=
      match c.work
      case Queued => Take(id)
      case Taken => if c.cancelled then SkipCancelled(id) else Begin(id)
      case Executing => FinishCallable(id)
      case Finished => Release(id)
      case _ =>
        if c.caller == Acquired then Register(id)
        else if c.caller == Registered then (if st.closing == Open then Check(id) else RefuseStopped(id))
        else if c.caller == Checked then HandToThread(id)
        else GiveBack(id);
    assert Enabled(workers, st, e);
  }

  /** An idle open parser has all its permits. */
  lemma IdleHasAllPermits(workers: nat, events: seq<Event>, st: State)
    requires Reaches(workers, events, st)
    requires forall id :: id in st.calls ==>
      st.calls[id].caller == Done && st.calls[id].work in {Unsubmitted, Released, Completed, Removed}
    ensures st.free == workers
  {
    ReachableInv(workers, events, st);
    assert Holding(st) == {};
  }

  // ----- Traces -----

  /** The state in which some event of a trace happens. */
  lemma {:induction false} EventHappens(workers: nat, events: seq<Event>, st: State, j: nat) returns (before: State)
    requires Reaches(workers, events, st) && j < |events|
    ensures Reaches(workers, events[..j], before) && Enabled(workers, before, events[j])
    decreases |events|
  {
    hide Enabled, Apply;
    var n := |events| - 1;
    var last :| Reaches(workers, events[..n], last) && Enabled(workers, last, events[n])
      && st == Apply(workers, last, events[n]);
    if j == n {
      before := last;
    } else {
      before := EventHappens(workers, events[..n], last, j);
      assert events[..n][..j] == events[..j];
    }
  }

  ghost predicate Cancelled(st: State, id: nat) { id in st.calls && st.calls[id].cancelled }

  /** The caller gives up, or `close` comes by. */
  predicate Cancels(e: Event, id: nat) { e == Cancel(id) || e == GiveBack(id) || e == Visit(id) }

  lemma StepCancelled(workers: nat, st: State, e: Event, id: nat)
    requires Enabled(workers, st, e) && st.tasks <= st.calls.Keys && (Cancelled(st, id) || Cancels(e, id))
    ensures Cancelled(Apply(workers, st, e), id)
  {
    hide Queue;
  }

  lemma {:induction false} CancelledStays(workers: nat, events: seq<Event>, st: State, i: nat, id: nat)
    requires Reaches(workers, events, st) && i < |events| && Cancels(events[i], id)
    ensures Cancelled(st, id)
    decreases |events|
  {
    hide Enabled, Apply, Cancels, Cancelled;
    var n := |events| - 1;
    var last :| Reaches(workers, events[..n], last) && Enabled(workers, last, events[n])
      && st == Apply(workers, last, events[n]);
    ReachableInv(workers, events[..n], last);
    if i < n { CancelledStays(workers, events[..n], last, i, id); }
    StepCancelled(workers, last, events[n], id);
  }

  /** Once the caller has given up or `close` has come by, the callable does not start any more. */
  lemma GivenUpNeverBegins(workers: nat, events: seq<Event>, st: State, i: nat, j: nat, id: nat)
    requires Reaches(workers, events, st) && i < j < |events|
    requires events[i] in {Cancel(id), GiveBack(id), Visit(id)}
    ensures events[j] != Begin(id)
  {
    hide Reaches;
    var before := EventHappens(workers, events, st, j);
    assert events[..j][i] == events[i];
    CancelledStays(workers, events[..j], before, i, id);
  }

  ghost predicate Begun(st: State, id: nat) {
    id in st.calls && st.calls[id].work in {Executing, Finished, Released, Completed, Removed}
  }

  lemma StepBegun(workers: nat, st: State, e: Event, id: nat)
    requires Enabled(workers, st, e) && Shapes(st) && (Begun(st, id) || e == Begin(id))
    ensures Begun(Apply(workers, st, e), id)
  {
    hide Queue;
  }

  lemma {:induction false} BegunStays(workers: nat, events: seq<Event>, st: State, i: nat, id: nat)
    requires Reaches(workers, events, st) && i < |events| && events[i] == Begin(id)
    ensures Begun(st, id)
    decreases |events|
  {
    hide Enabled, Apply, Begun, Shapes;
    var n := |events| - 1;
    var last :| Reaches(workers, events[..n], last) && Enabled(workers, last, events[n])
      && st == Apply(workers, last, events[n]);
    ReachableInv(workers, events[..n], last);
    if i < n { BegunStays(workers, events[..n], last, i, id); }
    StepBegun(workers, last, events[n], id);
  }

  /** A callable starts at most once. */
  lemma BeginsOnce(workers: nat, events: seq<Event>, st: State, i: nat, j: nat, id: nat)
    requires Reaches(workers, events, st) && i < j < |events| && events[i] == Begin(id)
    ensures events[j] != Begin(id)
  {
    hide Reaches;
    var before := EventHappens(workers, events, st, j);
    assert events[..j][i] == events[i];
    BegunStays(workers, events[..j], before, i, id);
  }

  // ----- The map of tasks -----

  /** Nothing is left to do for the call, neither for its caller nor in the pool. */
  predicate Ended(c: Call) { c.work == Removed || (c.caller == Done && c.work == Unsubmitted) }

  /** The map holds only tasks of registered calls that have not ended. */
  ghost predicate Filed(st: State) {
    forall id :: id in st.tasks ==> id in st.calls && !Ended(st.calls[id]) && st.calls[id].caller != Acquired
  }

  lemma StepFiled(workers: nat, st: State, e: Event)
    requires Enabled(workers, st, e) && Filed(st) && Shapes(st)
    ensures Filed(Apply(workers, st, e))
  {
    hide Queue;
  }

  lemma {:induction false} ReachableFiled(workers: nat, events: seq<Event>, st: State)
    requires Reaches(workers, events, st)
    ensures Filed(st)
    decreases |events|
  {
    hide Enabled, Apply, Filed, Shapes;
    if events == [] {
      InitialFiled(workers);
    } else {
      var n := |events| - 1;
      var last :| Reaches(workers, events[..n], last) && Enabled(workers, last, events[n])
        && st == Apply(workers, last, events[n]);
      ReachableInv(workers, events[..n], last);
      ReachableFiled(workers, events[..n], last);
      StepFiled(workers, last, events[n]);
    }
  }

  lemma InitialFiled(workers: nat)
    ensures Filed(Initial(workers))
  {}

  /** A call that has ended leaves nothing in the map, so the map does not grow with the calls. */
  lemma EndedIsForgotten(workers: nat, events: seq<Event>, st: State, id: nat)
    requires Reaches(workers, events, st) && id in st.calls
    requires st.calls[id].work == Removed || (st.calls[id].caller == Done && st.calls[id].work == Unsubmitted)
    ensures id !in st.tasks
  {
    hide Reaches;
    ReachableFiled(workers, events, st);
  }
}
