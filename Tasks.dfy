/**
 * The task contract the scheduler consumes: identity, declared
 * dependencies, thread mode and the two flags it queries.
 */
module Tasks {

  /** The identity the scheduler keys on: one per task class, not per instance. */
  type ClassId = nat

  /** Where the executor runs a task; only MAIN is treated specially by the scheduler. */
  datatype ThreadMode = Main | Pooled | Dedicated

  /**
   * One registered task instance. `id` tells two instances of the same
   * class apart (Java compares them by reference); `dependsOn` lists the
   * prerequisite classes in the order `dependsOn()` returns them, a null
   * list being represented by the empty one.
   */
  datatype Task = Task(
    id: nat,
    cls: ClassId,
    dependsOn: seq<ClassId>,
    threadMode: ThreadMode,
    needWait: bool,
    onlyInMainProcess: bool)
}
