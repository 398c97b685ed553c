/**
 * The startup scheduler: process-wide initialisation, registration of
 * tasks into the dependents map and the wait list, dispatch in a sorted
 * order, completion bookkeeping, and the decision whether the driver
 * thread blocks.
 *
 * Effects on collaborators are recorded as ghost logs: every `satisfy()`
 * call appends the receiving task to `satisfyLog`, every executor
 * submission appends to `submitted`, and `setSent(true)` adds the task
 * to `sent`.
 */
module Initiator {
  import opened Wrappers
  import opened Tasks
  import opened Bookkeeping

  /** The exceptions the scheduler throws. */
  datatype Error =
    | NotInitialized              // create() before a successful init()
    | NotOnUiThread               // start() off the main looper's thread
    | OnlyInMainProcess(task: Task) // a main-process-only task outside the main process
    | NegativeLatchCount          // new CountDownLatch(count) with count < 0
    | NullLatch                   // countDown() on the latch before start() created it

  /**
   * The platform context handed to `init`: a handle for its application
   * context and whether that context belongs to the main process.
   */
  datatype Context = Context(application: nat, inMainProcess: bool)

  /** `CountDownLatch.countDown()`: one step towards zero, never below it. */
  function CountDown(n: nat): nat
  {
    if n > 0 then n - 1 else 0
  }

  /** The process-wide static state: the context, the process role, and the init flag. */
  class Process {
    var context: Option<nat>
    var isMainProcess: bool
    var hasInit: bool

    constructor ()
      ensures context == None && !isMainProcess && !hasInit
    {
      context, isMainProcess, hasInit := None, false, false;
    }

    /** A null context is ignored; otherwise the context and process role are recorded. */
    method Init(ctx: Option<Context>)
      modifies this
      ensures ctx.None? ==> unchanged(this)
      ensures ctx.Some? ==>
        && context == Some(ctx.value.application)
        && isMainProcess == ctx.value.inMainProcess
        && hasInit
    {
      if ctx.Some? {
        context := Some(ctx.value.application);
        isMainProcess := ctx.value.inMainProcess;
        hasInit := true;
      }
    }
  }

  /** Every call yields a new scheduler, and only after `init` has succeeded. */
  method Create(p: Process) returns (r: Result<Initiator, Error>)
    ensures !p.hasInit ==> r == Failure(NotInitialized)
    ensures p.hasInit ==>
      && r.Success? && fresh(r.value)
      && r.value.process == p && r.value.Valid() && r.value.Empty()
  {
    if !p.hasInit {
      return Failure(NotInitialized);
    }
    var s := new Initiator(p);
    return Success(s);
  }

  class Initiator {
    const process: Process
    var allTasks: seq<Task>
    var allTaskCls: seq<ClassId>
    var latch: Option<nat>
    var needWaitCount: int
    var needWaitTasks: seq<Task>
    var finishedTasks: seq<ClassId>
    var dependedMap: DependedMap

    /** The tasks registered so far, in registration order. */
    ghost var registered: seq<Task>
    /** Every `satisfy()` call, as the task that received it. */
    ghost var satisfyLog: seq<Task>
    /** Every executor submission, in order. */
    ghost var submitted: seq<Task>
    /** The tasks whose sent flag has been set. */
    ghost var sent: set<Task>

    /**
     * The class list follows registration order, the task list holds the
     * registered tasks (in registration order, or in sorted order once
     * dispatch began), and the dependents map is the one registration builds.
     */
    ghost predicate Valid()
      reads this
    {
      && IndexAligned(registered, allTaskCls)
      && multiset(allTasks) == multiset(registered)
      && dependedMap == DependentsOf(registered)
    }

    /** The state of a freshly created scheduler. */
    ghost predicate Empty()
      reads this
    {
      && allTasks == [] && allTaskCls == [] && latch == None
      && needWaitCount == 0 && needWaitTasks == [] && finishedTasks == []
      && dependedMap == map[] && registered == []
      && satisfyLog == [] && submitted == [] && sent == {}
    }

    /** Task `i` of the task list has class `i` of the class list. */
    ghost predicate Aligned()
      reads this
    {
      IndexAligned(allTasks, allTaskCls)
    }

    /** The counter agrees with the length of the wait list. */
    ghost predicate WaitCountMatches()
      reads this
    {
      needWaitCount == |needWaitTasks|
    }

    /** The wait list is exactly the wait tasks among the registered ones. */
    ghost predicate WaitListIsWaitSet()
      reads this
    {
      needWaitTasks == WaitTasks(registered)
    }

    constructor (p: Process)
      ensures process == p && Valid() && Empty()
    {
      process := p;
      allTasks, allTaskCls, latch := [], [], None;
      needWaitCount, needWaitTasks, finishedTasks := 0, [], [];
      dependedMap := map[];
      registered, satisfyLog, submitted, sent := [], [], [], {};
    }

    /**
     * Registers `task`: records it under each class it depends on, appends
     * it and its class to the two lists, and tracks it when it is a wait task.
     * A null task changes nothing.
     */
    method AddTask(task: Option<Task>)
      requires Valid()
      modifies this`allTasks, this`allTaskCls, this`registered, this`dependedMap
      modifies this`satisfyLog, this`needWaitTasks, this`needWaitCount
      ensures Valid()
      ensures task.None? ==> unchanged(this)
      ensures task.Some? ==>
        var t := task.value;
        && registered == old(registered) + [t]
        && allTasks == old(allTasks) + [t]
        && allTaskCls == old(allTaskCls) + [t.cls]
        && dependedMap == AddDependents(old(dependedMap), t.dependsOn, t)
        && satisfyLog == old(satisfyLog) + Repeat(t, CountFinished(t.dependsOn, finishedTasks))
        && needWaitTasks == old(needWaitTasks) + (if IfNeedWait(t) then [t] else [])
        && needWaitCount == old(needWaitCount) + (if IfNeedWait(t) then 1 else 0)
      ensures old(Aligned()) ==> Aligned()
      ensures old(WaitCountMatches()) ==> WaitCountMatches()
      ensures old(WaitListIsWaitSet()) ==> WaitListIsWaitSet()
    {
      if task.Some? {
        var t := task.value;
        IndexAlignedAppend(registered, allTaskCls, t);
        IndexAlignedAppend(allTasks, allTaskCls, t);
        DependentsOfAppend(registered, t);
        WaitTasksAppend(registered, t);
        Register(t);
      }
    }

    /**
     * The non-null path of `AddTask`, with the same new state. It exists so
     * that `AddTask` can first state the preservation lemmas on the
     * pre-state values and then take the new state from this contract.
     */
    method Register(t: Task)
      modifies this`allTasks, this`allTaskCls, this`registered, this`dependedMap
      modifies this`satisfyLog, this`needWaitTasks, this`needWaitCount
      ensures registered == old(registered) + [t]
      ensures allTasks == old(allTasks) + [t]
      ensures allTaskCls == old(allTaskCls) + [t.cls]
      ensures dependedMap == AddDependents(old(dependedMap), t.dependsOn, t)
      ensures satisfyLog == old(satisfyLog) + Repeat(t, CountFinished(t.dependsOn, finishedTasks))
      ensures needWaitTasks == old(needWaitTasks) + (if IfNeedWait(t) then [t] else [])
      ensures needWaitCount == old(needWaitCount) + (if IfNeedWait(t) then 1 else 0)
    {
      CollectDepends(t);
      allTasks, allTaskCls, registered := allTasks + [t], allTaskCls + [t.cls], registered + [t];
      if IfNeedWait(t) {
        needWaitTasks, needWaitCount := needWaitTasks + [t], needWaitCount + 1;
      }
    }

    /**
     * Appends `t` to the dependents list of each class it declares,
     * creating an empty list for an absent key first, and sends `t` one
     * `satisfy()` for each declared class that has already finished.
     */
    method CollectDepends(t: Task)
      modifies this`dependedMap, this`satisfyLog
      ensures dependedMap == AddDependents(old(dependedMap), t.dependsOn, t)
      ensures satisfyLog == old(satisfyLog) + Repeat(t, CountFinished(t.dependsOn, finishedTasks))
    {
      var deps := t.dependsOn;
      for i := 0 to |deps|
        invariant dependedMap == AddDependents(old(dependedMap), deps[..i], t)
        invariant satisfyLog == old(satisfyLog) + Repeat(t, CountFinished(deps[..i], finishedTasks))
      {
        var cls := deps[i];
        ghost var before, signals := dependedMap, CountFinished(deps[..i], finishedTasks);
        PrefixStep(old(dependedMap), deps, i, t, finishedTasks);
        if cls !in dependedMap {
          dependedMap := dependedMap[cls := []];
        }
        dependedMap := dependedMap[cls := dependedMap[cls] + [t]];
        assert dependedMap == AddDependent(before, cls, t);
        if cls in finishedTasks {
          satisfyLog := satisfyLog + [t];
          assert Repeat(t, signals + 1) == Repeat(t, signals) + [t];
        }
      }
      assert deps[..|deps|] == deps;
    }

    /**
     * Sends one `satisfy()` to each entry of the dependents list of the
     * finished task's class, in list order; a class nobody depends on
     * sends nothing. The tasks that receive a signal are exactly the
     * registered tasks that declared that class.
     */
    method SatisfyChildren(launchTask: Task)
      requires Valid()
      modifies this`satisfyLog
      ensures satisfyLog == old(satisfyLog) + Lookup(dependedMap, launchTask.cls)
      ensures forall u :: multiset(satisfyLog)[u] > old(multiset(satisfyLog))[u]
                <==> u in registered && launchTask.cls in u.dependsOn
    {
      if launchTask.cls in dependedMap {
        var depend := dependedMap[launchTask.cls];
        for i := 0 to |depend|
          invariant satisfyLog == old(satisfyLog) + depend[..i]
        {
          satisfyLog := satisfyLog + [depend[i]];
        }
        assert depend[..|depend|] == depend;
      }
      forall u
        ensures multiset(satisfyLog)[u] > old(multiset(satisfyLog))[u]
                <==> u in registered && launchTask.cls in u.dependsOn
      {
        DependentsOfMember(registered, launchTask.cls, u);
      }
    }

    /**
     * Records that `t` finished. A wait task also leaves the wait list and
     * counts the latch and the counter down; before `start` created the
     * latch that count-down throws, after the list removal and before the
     * counter changes.
     */
    method MarkTaskDone(t: Task) returns (r: Outcome<Error>)
      modifies this`finishedTasks, this`needWaitTasks, this`latch, this`needWaitCount
      ensures finishedTasks == old(finishedTasks) + [t.cls]
      ensures forall c :: c in old(finishedTasks) ==> c in finishedTasks
      ensures !IfNeedWait(t) ==>
        && r == Pass && needWaitTasks == old(needWaitTasks)
        && latch == old(latch) && needWaitCount == old(needWaitCount)
      ensures IfNeedWait(t) ==> needWaitTasks == RemoveFirst(old(needWaitTasks), t)
      ensures IfNeedWait(t) && old(latch).None? ==>
        r == Fail(NullLatch) && latch == None && needWaitCount == old(needWaitCount)
      ensures IfNeedWait(t) && old(latch).Some? ==>
        && r == Pass && latch == Some(CountDown(old(latch).value))
        && needWaitCount == old(needWaitCount) - 1
      ensures old(WaitCountMatches()) && IfNeedWait(t) && t in old(needWaitTasks) && old(latch).Some?
        ==> WaitCountMatches()
    {
      finishedTasks := finishedTasks + [t.cls];
      if IfNeedWait(t) {
        RemoveFirstSpec(needWaitTasks, t);
        needWaitTasks := RemoveFirst(needWaitTasks, t);
        if latch.None? {
          return Fail(NullLatch);
        }
        latch := Some(CountDown(latch.value));
        needWaitCount := needWaitCount - 1;
      }
      r := Pass;
    }

    /**
     * The driver blocks on the latch exactly when the counter is positive.
     * While the counter and the wait list track the wait tasks of the
     * registered ones (from registration until the first completion),
     * that is exactly when some registered task is a wait task.
     */
    method Await() returns (blocks: bool)
      ensures blocks <==> needWaitCount > 0
      ensures WaitCountMatches() && WaitListIsWaitSet() ==>
        (blocks <==> exists u :: u in registered && IfNeedWait(u))
    {
      blocks := needWaitCount > 0;
      WaitTasksNonEmpty(registered);
    }

    /**
     * Starts the batch. Off the UI thread it throws before touching
     * anything; with no tasks it does nothing. Otherwise the task list
     * becomes `sorted` (the sorter's permutation of it), the latch starts
     * at the counter, and tasks are submitted and marked sent in order up
     * to the first task that may not run in this process, which throws.
     * When every task was dispatched, `blocked` says whether the driver waits.
     */
    method Start(onUiThread: bool, sorted: seq<Task>) returns (r: Outcome<Error>, blocked: bool)
      requires Valid()
      requires |allTasks| > 0 ==> multiset(sorted) == multiset(allTasks)
      modifies this`allTasks, this`latch, this`submitted, this`sent
      ensures Valid()
      ensures !onUiThread ==> r == Fail(NotOnUiThread) && !blocked && unchanged(this)
      ensures onUiThread && |old(allTasks)| == 0 ==> r == Pass && !blocked && unchanged(this)
      ensures onUiThread && |old(allTasks)| > 0 ==> allTasks == sorted
      ensures onUiThread && |old(allTasks)| > 0 && needWaitCount < 0 ==>
        && r == Fail(NegativeLatchCount) && !blocked
        && latch == old(latch) && submitted == old(submitted) && sent == old(sent)
      ensures onUiThread && |old(allTasks)| > 0 && needWaitCount >= 0 ==>
        var k := FirstRestricted(sorted, process.isMainProcess);
        && latch == Some(needWaitCount as nat)
        && submitted == old(submitted) + sorted[..k]
        && sent == old(sent) + (set j | 0 <= j < k :: sorted[j])
        && (k < |sorted| ==> r == Fail(OnlyInMainProcess(sorted[k])) && !blocked)
        && (k == |sorted| ==> r == Pass && (blocked <==> needWaitCount > 0))
      ensures onUiThread && |old(allTasks)| > 0 && needWaitCount >= 0
              && FirstRestricted(sorted, process.isMainProcess) == |sorted|
              && WaitCountMatches() && WaitListIsWaitSet() ==>
        (blocked <==> exists u :: u in registered && IfNeedWait(u))
    {
      if !onUiThread {
        return Fail(NotOnUiThread), false;
      }
      if |allTasks| == 0 {
        return Pass, false;
      }
      allTasks := sorted;
      if needWaitCount < 0 {
        return Fail(NegativeLatchCount), false;
      }
      latch := Some(needWaitCount as nat);
      for i := 0 to |allTasks|
        invariant allTasks == sorted && latch == Some(needWaitCount as nat)
        invariant forall j :: 0 <= j < i ==> !Restricted(sorted[j], process.isMainProcess)
        invariant submitted == old(submitted) + sorted[..i]
        invariant sent == old(sent) + (set j | 0 <= j < i :: sorted[j])
      {
        var task := allTasks[i];
        if task.onlyInMainProcess && !process.isMainProcess {
          return Fail(OnlyInMainProcess(task)), false;
        }
        submitted := submitted + [task];
        sent := sent + {task};
        assert sorted[..i + 1] == sorted[..i] + [task];
      }
      assert sorted[..|sorted|] == sorted;
      blocked := Await();
      r := Pass;
    }
  }
}
