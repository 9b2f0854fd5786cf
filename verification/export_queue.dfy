/**
 * The export job queue, reduced to what the application relies on: `add`
 * appends a job and answers with the id the queue assigns, drawn from an
 * incrementing counter ("1", "2", ...). Delivery to the worker, retries and
 * the Redis connection are not part of this model.
 */
module ExportQueue {
  import opened Wrappers
  import Decimal

  /** The opaque selector passed to the property data source. */
  type Filters = map<string, string>

  /** The payload of a queued job. */
  datatype JobData = JobData(userId: string, filters: Option<Filters>, format: Option<string>)

  datatype QueuedJob = QueuedJob(id: string, name: string, data: JobData)

  class JobQueue {
    var jobs: seq<QueuedJob>
    /** The last id number handed out. */
    var counter: nat
    /** The number each queued job's id was made from. */
    ghost var numbers: seq<nat>

    /** Every id is the decimal text of a number already handed out, in increasing order. */
    ghost predicate Valid()
      reads this
    {
      && |numbers| == |jobs|
      && (forall i :: 0 <= i < |jobs| ==> jobs[i].id == Decimal.NatToDecimal(numbers[i]))
      && (forall i :: 0 <= i < |numbers| ==> numbers[i] <= counter)
      && (forall i, j :: 0 <= i < j < |numbers| ==> numbers[i] < numbers[j])
    }

    constructor ()
      ensures Valid() && jobs == [] && counter == 0
    {
      jobs := [];
      counter := 0;
      numbers := [];
    }

    /** `queue.add(name, data)`: the new job gets the next id, unused by every queued job. */
    method Add(name: string, data: JobData) returns (id: string)
      requires Valid()
      modifies this
      ensures Valid()
      ensures jobs == old(jobs) + [QueuedJob(id, name, data)]
      ensures counter == old(counter) + 1 && id == Decimal.NatToDecimal(counter)
      ensures forall i :: 0 <= i < |old(jobs)| ==> old(jobs)[i].id != id
    {
      counter := counter + 1;
      id := Decimal.NatToDecimal(counter);
      forall i | 0 <= i < |jobs|
        ensures jobs[i].id != id
      {
        Decimal.DistinctDecimals(numbers[i], counter);
      }
      jobs := jobs + [QueuedJob(id, name, data)];
      numbers := numbers + [counter];
    }
  }
}
