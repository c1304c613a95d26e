/**
 * The runtime state handed to dispatching rules
 * (src/dispatching/context.rs). Each builder returns the record with one
 * map key inserted.
 */
module SchedulingContexts {
  import opened Common

  datatype SchedulingContext = SchedulingContext(
    currentTimeMs: int,
    remainingWork: map<string, int>,
    nextQueueLength: map<string, nat>,
    resourceUtilization: map<string, real>,
    arrivalTimes: map<string, int>,
    averageProcessingTime: Option<real>)
  {
    /** Sets (or overwrites) the remaining work of one task. */
    function WithRemainingWork(taskId: string, ms: int): (r: SchedulingContext)
      ensures r.remainingWork.Keys == remainingWork.Keys + {taskId}
      ensures r.remainingWork[taskId] == ms
      ensures forall k :: k in remainingWork && k != taskId ==> r.remainingWork[k] == remainingWork[k]
      ensures r.(remainingWork := remainingWork) == this
    {
      this.(remainingWork := remainingWork[taskId := ms])
    }

    /** Sets (or overwrites) the next-queue length of one task. */
    function WithNextQueue(taskId: string, length: nat): (r: SchedulingContext)
      ensures r.nextQueueLength.Keys == nextQueueLength.Keys + {taskId}
      ensures r.nextQueueLength[taskId] == length
      ensures forall k :: k in nextQueueLength && k != taskId ==> r.nextQueueLength[k] == nextQueueLength[k]
      ensures r.(nextQueueLength := nextQueueLength) == this
    {
      this.(nextQueueLength := nextQueueLength[taskId := length])
    }

    /** Sets (or overwrites) the utilisation of one resource. */
    function WithUtilization(resourceId: string, load: real): (r: SchedulingContext)
      ensures r.resourceUtilization.Keys == resourceUtilization.Keys + {resourceId}
      ensures r.resourceUtilization[resourceId] == load
      ensures forall k :: k in resourceUtilization && k != resourceId ==> r.resourceUtilization[k] == resourceUtilization[k]
      ensures r.(resourceUtilization := resourceUtilization) == this
    {
      this.(resourceUtilization := resourceUtilization[resourceId := load])
    }

    /** Sets (or overwrites) the arrival time of one task. */
    function WithArrivalTime(taskId: string, timeMs: int): (r: SchedulingContext)
      ensures r.arrivalTimes.Keys == arrivalTimes.Keys + {taskId}
      ensures r.arrivalTimes[taskId] == timeMs
      ensures forall k :: k in arrivalTimes && k != taskId ==> r.arrivalTimes[k] == arrivalTimes[k]
      ensures r.(arrivalTimes := arrivalTimes) == this
    {
      this.(arrivalTimes := arrivalTimes[taskId := timeMs])
    }

    function WithAverageProcessingTime(avgMs: real): (r: SchedulingContext)
      ensures r.averageProcessingTime == Some(avgMs)
      ensures r.(averageProcessingTime := averageProcessingTime) == this
    {
      this.(averageProcessingTime := Some(avgMs))
    }
  }

  /** `SchedulingContext::at_time(t)`: the clock at `t`, every map empty. */
  function AtTime(currentTimeMs: int): (c: SchedulingContext)
    ensures c.currentTimeMs == currentTimeMs
    ensures c.remainingWork == map[] && c.nextQueueLength == map[]
    ensures c.resourceUtilization == map[] && c.arrivalTimes == map[]
    ensures c.averageProcessingTime == None
  {
    SchedulingContext(currentTimeMs, map[], map[], map[], map[], None)
  }

  /** No builder moves the clock. */
  lemma BuildersKeepClock(c: SchedulingContext, id: string, ms: int, n: nat, load: real, avg: real)
    ensures c.WithRemainingWork(id, ms).currentTimeMs == c.currentTimeMs
    ensures c.WithNextQueue(id, n).currentTimeMs == c.currentTimeMs
    ensures c.WithUtilization(id, load).currentTimeMs == c.currentTimeMs
    ensures c.WithArrivalTime(id, ms).currentTimeMs == c.currentTimeMs
    ensures c.WithAverageProcessingTime(avg).currentTimeMs == c.currentTimeMs
  {
  }
}
