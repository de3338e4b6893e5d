/** The pool's configuration (`CommonsBackedPool.Policy`). */
module PoolPolicy {

  /** Every setting is a Java `int`; a non-positive value means "no limit" or "disabled". */
  datatype Policy = Policy(
    maxActivePerNode: int,
    maxTotal: int,
    maxIdlePerNode: int,
    minIdlePerNode: int,
    maxWaitForConnection: int,
    timeBetweenScheduledTaskRunsMillis: int)

  /** The values a freshly constructed `Policy` holds. */
  function DefaultPolicy(): (p: Policy)
    ensures p.maxActivePerNode == 20 && p.maxTotal == -1
    ensures p.maxIdlePerNode == 10 && p.minIdlePerNode == 10
    ensures p.maxWaitForConnection == 1000
    ensures p.timeBetweenScheduledTaskRunsMillis == 60 * 1000
    ensures ScheduledTasksEnabled(p) && !TotalCapped(p)
  {
    Policy(20, -1, 10, 10, 1000, 1000 * 60)
  }

  /** Background maintenance (refresh, suspension, eviction) runs only for a positive interval. */
  predicate ScheduledTasksEnabled(p: Policy)
  {
    p.timeBetweenScheduledTaskRunsMillis > 0
  }

  /** A negative total cap means the backing pool has no overall limit. */
  predicate TotalCapped(p: Policy)
  {
    p.maxTotal > 0
  }
}
