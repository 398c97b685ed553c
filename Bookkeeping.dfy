/**
 * The rules behind the scheduler's bookkeeping, as functions on values:
 * the dependents map registration builds, which tasks the driver waits
 * for, how many prerequisites are already finished at registration, how a
 * task leaves the wait list, and how far the dispatch loop gets.
 */
module Bookkeeping {
  import opened Tasks

  /** `n` copies of `x`: the satisfy() signals one task receives in a row. */
  function Repeat(x: Task, n: nat): (r: seq<Task>)
    ensures |r| == n
    ensures forall i :: 0 <= i < n ==> r[i] == x
  {
    if n == 0 then [] else Repeat(x, n - 1) + [x]
  }

  // ---------------------------------------------------------------------------
  // The task list and the class list
  // ---------------------------------------------------------------------------

  /** Entry `i` of `cs` is the class of task `i` of `ts`, for every position. */
  ghost predicate IndexAligned(ts: seq<Task>, cs: seq<ClassId>)
  {
    |ts| == |cs| && forall i :: 0 <= i < |ts| ==> ts[i].cls == cs[i]
  }

  /** Appending a task to one list and its class to the other keeps them aligned. */
  lemma IndexAlignedAppend(ts: seq<Task>, cs: seq<ClassId>, t: Task)
    ensures IndexAligned(ts, cs) ==> IndexAligned(ts + [t], cs + [t.cls])
  {
  }

  // ---------------------------------------------------------------------------
  // The dependents map: prerequisite class -> tasks that declared it
  // ---------------------------------------------------------------------------

  type DependedMap = map<ClassId, seq<Task>>

  /** The dependents list of `c`, the empty list standing for an absent key. */
  function Lookup(m: DependedMap, c: ClassId): seq<Task>
  {
    if c in m then m[c] else []
  }

  /** One visit of the registration loop: create the list of `c` if absent, then append `t`. */
  function AddDependent(m: DependedMap, c: ClassId, t: Task): DependedMap
  {
    m[c := Lookup(m, c) + [t]]
  }

  /** One visit touches only the key it visits. */
  lemma AddDependentAt(m: DependedMap, c: ClassId, t: Task, k: ClassId)
    ensures k in AddDependent(m, c, t) <==> k in m || k == c
    ensures Lookup(AddDependent(m, c, t), k) == if k == c then Lookup(m, k) + [t] else Lookup(m, k)
  {
  }

  /** The map after registering `t` with dependencies `deps`, visited in order. */
  function AddDependents(m: DependedMap, deps: seq<ClassId>, t: Task): DependedMap
  {
    if deps == [] then m
    else AddDependent(AddDependents(m, deps[..|deps| - 1], t), deps[|deps| - 1], t)
  }

  /** Registration creates the keys of the declared classes and keeps the others. */
  lemma {:induction false} AddDependentsKeys(m: DependedMap, deps: seq<ClassId>, t: Task, k: ClassId)
    ensures k in AddDependents(m, deps, t) <==> k in m || k in deps
  {
    if deps != [] {
      var init: seq<ClassId>, c: ClassId := deps[..|deps| - 1], deps[|deps| - 1];
      assert deps == init + [c];
      CountSnoc(init, c, k);
      AddDependentsKeys(m, init, t, k);
      AddDependentAt(AddDependents(m, init, t), c, t, k);
    }
  }

  /** How many times `k` occurs in `deps`. */
  function Occurrences(deps: seq<ClassId>, k: ClassId): nat
  {
    if deps == [] then 0
    else Occurrences(deps[..|deps| - 1], k) + if deps[|deps| - 1] == k then 1 else 0
  }

  /** The occurrence count is the multiplicity in the multiset of `deps`. */
  lemma {:induction false} OccurrencesMultiset(deps: seq<ClassId>, k: ClassId)
    ensures Occurrences(deps, k) == multiset(deps)[k]
  {
    if deps != [] {
      var init, c := deps[..|deps| - 1], deps[|deps| - 1];
      assert deps == init + [c];
      OccurrencesMultiset(init, k);
      CountSnoc(init, c, k);
    }
  }

  /** The list of `k` after registration is the old one plus one `t` per occurrence of `k`. */
  lemma {:induction false} AddDependentsLookup(m: DependedMap, deps: seq<ClassId>, t: Task, k: ClassId)
    ensures Lookup(AddDependents(m, deps, t), k) == Lookup(m, k) + Repeat(t, Occurrences(deps, k))
  {
    if deps != [] {
      var init, c := deps[..|deps| - 1], deps[|deps| - 1];
      AddDependentsLookup(m, init, t, k);
      AddDependentAt(AddDependents(m, init, t), c, t, k);
    }
  }

  /**
   * Registration appends `t` to the list of every declared class, once per
   * time the class is declared, creates the keys that were missing, and
   * leaves every other key as it was.
   */
  lemma AddDependentsAt(m: DependedMap, deps: seq<ClassId>, t: Task, k: ClassId)
    ensures k in AddDependents(m, deps, t) <==> k in m || k in deps
    ensures Lookup(AddDependents(m, deps, t), k) == Lookup(m, k) + Repeat(t, multiset(deps)[k])
  {
    AddDependentsKeys(m, deps, t, k);
    AddDependentsLookup(m, deps, t, k);
    OccurrencesMultiset(deps, k);
  }

  /** Declaring `c` once more adds one occurrence of `c` and none of any other class. */
  lemma CountSnoc(init: seq<ClassId>, c: ClassId, k: ClassId)
    ensures multiset(init + [c])[k] == multiset(init)[k] + if c == k then 1 else 0
    ensures k in init + [c] <==> k in init || k == c
  {
    assert multiset(init + [c]) == multiset(init) + multiset{c};
  }

  /** Extending the visited prefix of `deps` by one class is one more visit. */
  lemma PrefixStep(m: DependedMap, deps: seq<ClassId>, i: nat, t: Task, finished: seq<ClassId>)
    requires i < |deps|
    ensures AddDependents(m, deps[..i + 1], t) == AddDependent(AddDependents(m, deps[..i], t), deps[i], t)
    ensures CountFinished(deps[..i + 1], finished)
            == CountFinished(deps[..i], finished) + if deps[i] in finished then 1 else 0
  {
    assert deps[..i + 1][..i] == deps[..i];
  }

  /** The dependents map built by registering `ts` in order into an empty map. */
  function DependentsOf(ts: seq<Task>): DependedMap
  {
    if ts == [] then map[]
    else
      var last := ts[|ts| - 1];
      AddDependents(DependentsOf(ts[..|ts| - 1]), last.dependsOn, last)
  }

  /** Registering one more task adds its dependencies to the map. */
  lemma DependentsOfAppend(ts: seq<Task>, t: Task)
    ensures DependentsOf(ts + [t]) == AddDependents(DependentsOf(ts), t.dependsOn, t)
  {
    assert (ts + [t])[..|ts|] == ts;
  }

  /** A task is listed under class `c` exactly when it was registered and declared `c`. */
  lemma {:induction false} DependentsOfMember(ts: seq<Task>, c: ClassId, u: Task)
    ensures u in Lookup(DependentsOf(ts), c) <==> u in ts && c in u.dependsOn
  {
    if ts != [] {
      var init, last := ts[..|ts| - 1], ts[|ts| - 1];
      assert ts == init + [last];
      DependentsOfMember(init, c, u);
      AddDependentsAt(DependentsOf(init), last.dependsOn, last, c);
      var n := multiset(last.dependsOn)[c];
      assert n > 0 <==> c in last.dependsOn;
      var added := Repeat(last, n);
      assert u in added <==> n > 0 && u == last by {
        if n > 0 { assert added[0] == last; }
      }
    }
  }

  // ---------------------------------------------------------------------------
  // Prerequisites already finished when a task registers
  // ---------------------------------------------------------------------------

  /** How many entries of `deps` name a class present in `finished`. */
  function CountFinished(deps: seq<ClassId>, finished: seq<ClassId>): nat
  {
    if deps == [] then 0
    else CountFinished(deps[..|deps| - 1], finished) + if deps[|deps| - 1] in finished then 1 else 0
  }

  /**
   * The count is at most one per declared dependency; it is zero exactly
   * when no declared class has finished, and full exactly when all have.
   */
  lemma {:induction false} CountFinishedBounds(deps: seq<ClassId>, finished: seq<ClassId>)
    ensures CountFinished(deps, finished) <= |deps|
    ensures CountFinished(deps, finished) == 0 <==> forall i :: 0 <= i < |deps| ==> deps[i] !in finished
    ensures CountFinished(deps, finished) == |deps| <==> forall i :: 0 <= i < |deps| ==> deps[i] in finished
  {
    if deps != [] {
      var init := deps[..|deps| - 1];
      CountFinishedBounds(init, finished);
      assert forall i :: 0 <= i < |init| ==> init[i] == deps[i];
    }
  }

  // ---------------------------------------------------------------------------
  // The wait set
  // ---------------------------------------------------------------------------

  /** A task the driver waits for: not run on the main thread, and flagged `needWait`. */
  predicate IfNeedWait(t: Task)
  {
    t.threadMode != Main && t.needWait
  }

  /** The wait tasks of `ts`, in registration order. */
  function WaitTasks(ts: seq<Task>): seq<Task>
  {
    if ts == [] then []
    else
      var last := ts[|ts| - 1];
      WaitTasks(ts[..|ts| - 1]) + if IfNeedWait(last) then [last] else []
  }

  /** Registering one more task extends the wait list when it is a wait task. */
  lemma WaitTasksAppend(ts: seq<Task>, t: Task)
    ensures WaitTasks(ts + [t]) == WaitTasks(ts) + if IfNeedWait(t) then [t] else []
  {
    assert (ts + [t])[..|ts|] == ts;
  }

  /** The wait list holds each wait task as often as it was registered, and nothing else. */
  lemma {:induction false} WaitTasksCount(ts: seq<Task>, u: Task)
    ensures multiset(WaitTasks(ts))[u] == if IfNeedWait(u) then multiset(ts)[u] else 0
    ensures u in WaitTasks(ts) <==> u in ts && IfNeedWait(u)
    ensures |WaitTasks(ts)| <= |ts|
  {
    if ts != [] {
      var init, last := ts[..|ts| - 1], ts[|ts| - 1];
      assert ts == init + [last];
      WaitTasksCount(init, u);
    }
  }

  /** The wait list is non-empty exactly when some registered task is a wait task. */
  lemma {:induction false} WaitTasksNonEmpty(ts: seq<Task>)
    ensures WaitTasks(ts) != [] <==> exists u :: u in ts && IfNeedWait(u)
  {
    if WaitTasks(ts) != [] {
      WaitTasksCount(ts, WaitTasks(ts)[0]);
    } else {
      forall u | u in ts
        ensures !IfNeedWait(u)
      {
        WaitTasksCount(ts, u);
      }
    }
  }

  // ---------------------------------------------------------------------------
  // Removing a finished task from the wait list (java.util.List.remove(Object))
  // ---------------------------------------------------------------------------

  /** `s` without its first occurrence of `x`; `s` itself when there is none. */
  function RemoveFirst<T(==)>(s: seq<T>, x: T): seq<T>
  {
    if s == [] then []
    else if s[0] == x then s[1..]
    else [s[0]] + RemoveFirst(s[1..], x)
  }

  /** The position of the first occurrence of `x` in `s`. */
  function IndexOf<T(==)>(s: seq<T>, x: T): (i: nat)
    requires x in s
    ensures i < |s| && s[i] == x
    ensures forall j :: 0 <= j < i ==> s[j] != x
  {
    if s[0] == x then 0 else 1 + IndexOf(s[1..], x)
  }

  /** Removal changes nothing when `x` does not occur. */
  lemma {:induction false} RemoveFirstAbsent<T>(s: seq<T>, x: T)
    requires x !in s
    ensures RemoveFirst(s, x) == s
  {
    if s != [] {
      assert s[0] != x && x !in s[1..];
      RemoveFirstAbsent(s[1..], x);
      assert s == [s[0]] + s[1..];
    }
  }

  /** Removal cuts out exactly the first occurrence and keeps the order of the rest. */
  lemma {:induction false} RemoveFirstCut<T>(s: seq<T>, x: T)
    requires x in s
    ensures RemoveFirst(s, x) == s[..IndexOf(s, x)] + s[IndexOf(s, x) + 1..]
  {
    if s[0] != x {
      var t := s[1..];
      assert x in t;
      RemoveFirstCut(t, x);
      var i := IndexOf(t, x);
      assert IndexOf(s, x) == i + 1;
      assert s[..i + 1] == [s[0]] + t[..i];
      assert s[i + 2..] == t[i + 1..];
    }
  }

  /** Cutting one element out of the middle of a sequence removes one copy of it. */
  lemma CutOne<T>(before: seq<T>, x: T, after: seq<T>)
    ensures multiset(before + after) == multiset(before + [x] + after) - multiset{x}
    ensures |before + after| == |before + [x] + after| - 1
  {
    assert multiset(before + [x] + after) == multiset(before) + multiset{x} + multiset(after);
  }

  /**
   * `List.remove(Object)`: one copy of `x` leaves the list when it is
   * present, the list shrinks by one exactly then, and nothing changes otherwise.
   */
  lemma RemoveFirstSpec<T>(s: seq<T>, x: T)
    ensures x !in s ==> RemoveFirst(s, x) == s
    ensures x in s ==> multiset(RemoveFirst(s, x)) == multiset(s) - multiset{x}
    ensures |RemoveFirst(s, x)| == if x in s then |s| - 1 else |s|
  {
    if x in s {
      var i := IndexOf(s, x);
      var before, after := s[..i], s[i + 1..];
      RemoveFirstCut(s, x);
      assert s == before + [x] + after;
      CutOne(before, x, after);
    } else {
      RemoveFirstAbsent(s, x);
    }
  }

  // ---------------------------------------------------------------------------
  // How far dispatch gets outside the main process
  // ---------------------------------------------------------------------------

  /** A task that may not run in this process. */
  predicate Restricted(t: Task, isMainProcess: bool)
  {
    t.onlyInMainProcess && !isMainProcess
  }

  /**
   * The position of the first task in `order` that may not run in this
   * process, or `|order|` when every task may.
   */
  function FirstRestricted(order: seq<Task>, isMainProcess: bool): (k: nat)
    ensures k <= |order|
    ensures forall j :: 0 <= j < k ==> !Restricted(order[j], isMainProcess)
    ensures k < |order| ==> Restricted(order[k], isMainProcess)
  {
    if order == [] then 0
    else if Restricted(order[0], isMainProcess) then 0
    else 1 + FirstRestricted(order[1..], isMainProcess)
  }
}
