/** Task demands: the ordered mapping from task name to required labor-hours
    that the percentage distribution produces and the scheduler consumes. */
module Tasks {

  /** One entry of the ordered task mapping; insertion order is processing order. */
  datatype TaskDemand = TaskDemand(name: string, hours: real)

  /** Sum of the hours of all tasks, taken in order. */
  function SumHours(ts: seq<TaskDemand>): real
  {
    if ts == [] then 0.0 else SumHours(ts[..|ts| - 1]) + ts[|ts| - 1].hours
  }

  /** The hours a task actually asks the scheduler for: a task whose hours are
      not positive is skipped, so it asks for nothing. */
  function Demand(t: TaskDemand): (h: real)
    ensures h >= 0.0
    ensures t.hours > 0.0 ==> h == t.hours
  {
    if t.hours > 0.0 then t.hours else 0.0
  }

  /** Sum of the demands of all tasks. */
  function PositiveDemand(ts: seq<TaskDemand>): real
  {
    if ts == [] then 0.0 else PositiveDemand(ts[..|ts| - 1]) + Demand(ts[|ts| - 1])
  }
}
