// The synchronous task scheduler: a priority queue of tasks, each run on
// its target with its handler called and, for QPU tasks, one call into the
// registered backend.

module Scheduling {

  /** Where a task runs. `MIXED`, used by the scheduler, is part of the set. */
  datatype Target = CPU | QPU | AUTO | MIXED

  datatype ExecHint = NONE | DENSE | CLIFFORD

  /** `Task`: the handler is reduced to whether one is present; what it does
      is the caller's. */
  datatype Task = Task(name: string, target: Target, hint: ExecHint, priority: int, hasHandler: bool)

  /** What running a task does outside the queue, in order: the log line, the
      handler call, the backend call. */
  datatype Event = Logged(msg: string) | Handled(name: string) | Dispatched(qir: string)

  /** The program handed to the backend for every QPU task. */
  const DispatchQir: string := "; scheduler dispatch\n"

  function TargetName(t: Target): string {
    match t
    case CPU => "CPU"
    case QPU => "QPU"
    case AUTO => "AUTO"
    case MIXED => "MIXED"
  }

  function HintSuffix(h: ExecHint): string {
    match h
    case CLIFFORD => " [CLIFFORD]"
    case DENSE => " [DENSE]"
    case NONE => ""
  }

  /** The info line logged before a task runs. */
  function Message(t: Task): string {
    "Running task '" + t.name + "' on " + TargetName(t.target) + HintSuffix(t.hint)
  }

  /** The effects of running one popped task. */
  function TaskEvents(t: Task, hasBackend: bool): seq<Event> {
    [Logged(Message(t))]
    + (if t.hasHandler then [Handled(t.name)] else [])
    + (if t.target == QPU && hasBackend then [Dispatched(DispatchQir)] else [])
  }

  /** The effects of running tasks in the given order. */
  function Trace(order: seq<Task>, hasBackend: bool): seq<Event>
    decreases |order|
  {
    if |order| == 0 then []
    else Trace(order[..|order| - 1], hasBackend) + TaskEvents(order[|order| - 1], hasBackend)
  }

  /** `Compare`: the queue's top has the highest priority. */
  predicate IsTop(t: Task, m: multiset<Task>) {
    t in m && forall u :: u in m ==> u.priority <= t.priority
  }

  predicate Descending(order: seq<Task>) {
    forall i, j :: 0 <= i < j < |order| ==> order[i].priority >= order[j].priority
  }

  /** Part way through a run: `order` has been popped from the queue `m0`,
      `rest` is still queued, and nothing still queued outranks a popped task. */
  predicate Popped(order: seq<Task>, rest: multiset<Task>, m0: multiset<Task>) {
    multiset(order) + rest == m0 && Descending(order) &&
    forall i, u :: 0 <= i < |order| && u in rest ==> order[i].priority >= u.priority
  }

  /** Part way through a run, with the log grown by the effects of the tasks
      popped so far. */
  predicate RunSoFar(order: seq<Task>, rest: multiset<Task>, log: seq<Event>,
                     m0: multiset<Task>, log0: seq<Event>, hasBackend: bool) {
    Popped(order, rest, m0) && log == log0 + Trace(order, hasBackend)
  }

  lemma RunStep(order: seq<Task>, rest: multiset<Task>, log: seq<Event>,
                m0: multiset<Task>, log0: seq<Event>, hasBackend: bool, t: Task)
    requires RunSoFar(order, rest, log, m0, log0, hasBackend) && IsTop(t, rest)
    ensures RunSoFar(order + [t], rest - multiset{t}, log + TaskEvents(t, hasBackend), m0, log0, hasBackend)
  {
    PopStep(order, rest, m0, t);
    LogStep(log0, log, order, t, hasBackend);
  }

  /** Popping the top keeps that so. */
  lemma PopStep(order: seq<Task>, rest: multiset<Task>, m0: multiset<Task>, t: Task)
    requires Popped(order, rest, m0) && IsTop(t, rest)
    ensures Popped(order + [t], rest - multiset{t}, m0)
  {
    var order', rest' := order + [t], rest - multiset{t};
    assert multiset(order') == multiset(order) + multiset{t};
    assert rest == rest' + multiset{t};
    forall i, j | 0 <= i < j < |order'|
      ensures order'[i].priority >= order'[j].priority
    {
      if j == |order| {
        assert order'[j] == t && order'[i] == order[i];
      }
    }
    forall i, u | 0 <= i < |order'| && u in rest'
      ensures order'[i].priority >= u.priority
    {
      assert u in rest;
      if i == |order| {
        assert order'[i] == t;
      }
    }
  }

  /** A non-empty queue has a top. */
  lemma {:induction false} TopExists(m: multiset<Task>)
    requires m != multiset{}
    ensures exists t :: IsTop(t, m)
    decreases |m|
  {
    var x :| x in m;
    var rest := m - multiset{x};
    assert m == rest + multiset{x};
    if rest == multiset{} {
      assert IsTop(x, m);
    } else {
      TopExists(rest);
      var y :| IsTop(y, rest);
      if x.priority <= y.priority {
        assert IsTop(y, m);
      } else {
        assert IsTop(x, m);
      }
    }
  }

  class Scheduler {
    var tasks: multiset<Task>
    var running: bool
    var paused: bool
    /** What the tasks run so far have done, oldest first. */
    var log: seq<Event>

    constructor ()
      ensures tasks == multiset{} && !running && !paused && log == []
    {
      tasks, running, paused, log := multiset{}, false, false, [];
    }

    /** `add_task(t)`: queued whatever `running` and `paused` are. */
    method AddTask(t: Task)
      modifies this
      ensures tasks == old(tasks) + multiset{t}
      ensures running == old(running) && paused == old(paused) && log == old(log)
    {
      tasks := tasks + multiset{t};
    }

    /** `run()`: pop the top task until the queue is empty. The source spins
        without end when it is paused with tasks queued, since nothing in the
        synchronous loop clears `paused`; `run` is modelled for the callers
        that do not do that, and so the loop needs no `paused` branch.
        Every task queued runs exactly once (`order` is a permutation of the
        queue), in non-increasing priority, and the log grows by the effects
        of the tasks in that order. */
    method Run(hasBackend: bool) returns (ghost order: seq<Task>)
      requires !paused || tasks == multiset{}
      modifies this
      ensures multiset(order) == old(tasks) && Descending(order)
      ensures log == old(log) + Trace(order, hasBackend)
      ensures tasks == multiset{} && !running && paused == old(paused)
    {
      running := true;
      order := [];
      ghost var m0, log0 := tasks, log;
      while true
        invariant running && paused == old(paused) && (!paused || tasks == multiset{})
        invariant RunSoFar(order, tasks, log, m0, log0, hasBackend)
        decreases |tasks|
      {
        if tasks == multiset{} || !running {
          break;
        }
        ghost var rest, before := tasks, log;
        var t := PopAndRun(hasBackend);
        RunStep(order, rest, before, m0, log0, hasBackend, t);
        order := order + [t];
      }
      running := false;
    }

    /** One turn of the loop in `run`: take the top task off the queue and
        run it. */
    method PopAndRun(hasBackend: bool) returns (t: Task)
      requires tasks != multiset{}
      modifies this
      ensures IsTop(t, old(tasks)) && tasks == old(tasks) - multiset{t}
      ensures log == old(log) + TaskEvents(t, hasBackend)
      ensures running == old(running) && paused == old(paused)
    {
      TopExists(tasks);
      t :| IsTop(t, tasks);
      tasks := tasks - multiset{t};
      log := log + TaskEvents(t, hasBackend);
    }

    /** `pause()`. */
    method Pause()
      modifies this
      ensures paused && tasks == old(tasks) && running == old(running) && log == old(log)
    {
      paused := true;
    }

    /** `resume()`. */
    method Resume()
      modifies this
      ensures !paused && tasks == old(tasks) && running == old(running) && log == old(log)
    {
      paused := false;
    }

    /** `stop()`: the flag only; joining a worker thread is not modelled. */
    method Stop()
      modifies this
      ensures !running && tasks == old(tasks) && paused == old(paused) && log == old(log)
    {
      running := false;
    }

    /** `wait()`: the same flag effect as `stop`. */
    method Wait()
      modifies this
      ensures !running && tasks == old(tasks) && paused == old(paused) && log == old(log)
    {
      running := false;
    }
  }

  /** Running one more task extends the log by its effects. */
  lemma LogStep(log0: seq<Event>, log: seq<Event>, order: seq<Task>, t: Task, hasBackend: bool)
    requires log == log0 + Trace(order, hasBackend)
    ensures log + TaskEvents(t, hasBackend) == log0 + Trace(order + [t], hasBackend)
  {
    assert (order + [t])[..|order|] == order;
    assert Trace(order + [t], hasBackend) == Trace(order, hasBackend) + TaskEvents(t, hasBackend);
  }

  // ---------------------------------------------------------------------------
  // Counting handler and backend calls

  predicate IsQpu(t: Task) {
    t.target == QPU
  }

  predicate HasHandler(t: Task) {
    t.hasHandler
  }

  function NumHandled(log: seq<Event>): nat {
    if |log| == 0 then 0 else NumHandled(log[..|log| - 1]) + (if log[|log| - 1].Handled? then 1 else 0)
  }

  function NumDispatched(log: seq<Event>): nat {
    if |log| == 0 then 0 else NumDispatched(log[..|log| - 1]) + (if log[|log| - 1].Dispatched? then 1 else 0)
  }

  /** The tasks of a list that satisfy p, in order. */
  function Filter(s: seq<Task>, p: Task -> bool): (r: seq<Task>)
    ensures |r| <= |s|
    ensures forall i :: 0 <= i < |r| ==> p(r[i])
  {
    if |s| == 0 then [] else Filter(s[..|s| - 1], p) + (if p(s[|s| - 1]) then [s[|s| - 1]] else [])
  }

  lemma {:induction false} CountsAppend(a: seq<Event>, b: seq<Event>)
    ensures NumHandled(a + b) == NumHandled(a) + NumHandled(b)
    ensures NumDispatched(a + b) == NumDispatched(a) + NumDispatched(b)
    decreases |b|
  {
    if |b| == 0 {
      assert a + b == a;
    } else {
      CountsAppend(a, b[..|b| - 1]);
      assert (a + b)[..|a + b| - 1] == a + b[..|b| - 1];
    }
  }

  /** One task: one handler call if it has a handler, and one backend call
      exactly when it targets the QPU and a backend is registered. */
  lemma TaskCounts(t: Task, hasBackend: bool)
    ensures NumHandled(TaskEvents(t, hasBackend)) == if t.hasHandler then 1 else 0
    ensures NumDispatched(TaskEvents(t, hasBackend)) == if t.target == QPU && hasBackend then 1 else 0
  {
    var l: seq<Event> := [Logged(Message(t))];
    var h: seq<Event> := if t.hasHandler then [Handled(t.name)] else [];
    var d: seq<Event> := if t.target == QPU && hasBackend then [Dispatched(DispatchQir)] else [];
    CountsAppend(l, h);
    CountsAppend(l + h, d);
    assert [Logged(Message(t))][..0] == [];
    if t.hasHandler {
      assert h[..0] == [];
    }
    if t.target == QPU && hasBackend {
      assert d[..0] == [];
    }
  }

  /** Over a whole run: as many handler calls as tasks with a handler, and as
      many backend calls as QPU tasks when a backend is registered, none
      otherwise. */
  lemma {:induction false} TraceCounts(order: seq<Task>, hasBackend: bool)
    ensures NumHandled(Trace(order, hasBackend)) == |Filter(order, HasHandler)|
    ensures NumDispatched(Trace(order, hasBackend)) == if hasBackend then |Filter(order, IsQpu)| else 0
    decreases |order|
  {
    if |order| > 0 {
      var init, t := order[..|order| - 1], order[|order| - 1];
      TraceCounts(init, hasBackend);
      CountsAppend(Trace(init, hasBackend), TaskEvents(t, hasBackend));
      TaskCounts(t, hasBackend);
    }
  }

  /** How often a task occurs among the filtered ones depends only on how
      often it occurs in the list. */
  lemma {:induction false} FilterMultiplicity(s: seq<Task>, p: Task -> bool, x: Task)
    ensures multiset(Filter(s, p))[x] == if p(x) then multiset(s)[x] else 0
    decreases |s|
  {
    if |s| > 0 {
      var init, last := s[..|s| - 1], s[|s| - 1];
      FilterMultiplicity(init, p, x);
      assert s == init + [last];
    }
  }

  /** The counts do not depend on the order the queue hands the tasks out in:
      any two orders of the same tasks give the same numbers of handler and
      backend calls. */
  lemma FilterPermutation(s: seq<Task>, s': seq<Task>, p: Task -> bool)
    requires multiset(s) == multiset(s')
    ensures |Filter(s, p)| == |Filter(s', p)|
  {
    forall x
      ensures multiset(Filter(s, p))[x] == multiset(Filter(s', p))[x]
    {
      FilterMultiplicity(s, p, x);
      FilterMultiplicity(s', p, x);
    }
    assert multiset(Filter(s, p)) == multiset(Filter(s', p));
    assert |multiset(Filter(s, p))| == |Filter(s, p)|;
  }

  /** Two runs of the same queue make the same numbers of calls. */
  lemma RunCountsAgree(order: seq<Task>, order': seq<Task>, hasBackend: bool)
    requires multiset(order) == multiset(order')
    ensures NumHandled(Trace(order, hasBackend)) == NumHandled(Trace(order', hasBackend))
    ensures NumDispatched(Trace(order, hasBackend)) == NumDispatched(Trace(order', hasBackend))
  {
    TraceCounts(order, hasBackend);
    TraceCounts(order', hasBackend);
    FilterPermutation(order, order', HasHandler);
    FilterPermutation(order, order', IsQpu);
  }

  /** tests/scheduler_qpu_dispatch_test.cpp: one QPU task with a handler and a
      registered backend; the handler runs and the backend is called once. */
  method ExampleQpuDispatch(s: Scheduler) returns (ghost order: seq<Task>)
    requires s.tasks == multiset{} && !s.paused
    modifies s
    ensures s.log == old(s.log) + [Logged("Running task 'qpu_task' on QPU"), Handled("qpu_task"), Dispatched(DispatchQir)]
    ensures NumHandled(s.log) == NumHandled(old(s.log)) + 1
    ensures NumDispatched(s.log) == NumDispatched(old(s.log)) + 1
  {
    var t := Task("qpu_task", QPU, NONE, 0, true);
    s.AddTask(t);
    order := s.Run(true);
    SingleOrder(order, t);
    ExampleEvents(t);
    CountsAppend(old(s.log), TaskEvents(t, true));
    TaskCounts(t, true);
  }

  lemma SingleOrder(order: seq<Task>, t: Task)
    requires multiset(order) == multiset{} + multiset{t}
    ensures order == [t]
  {
    assert |order| == |multiset(order)| == 1;
    assert order[0] in multiset(order);
  }

  lemma ExampleEvents(t: Task)
    requires t == Task("qpu_task", QPU, NONE, 0, true)
    ensures Trace([t], true) == TaskEvents(t, true)
    ensures TaskEvents(t, true) == [Logged("Running task 'qpu_task' on QPU"), Handled("qpu_task"), Dispatched(DispatchQir)]
  {
    assert [t][..0] == [];
    assert Message(t) == "Running task 'qpu_task' on QPU";
  }
}
