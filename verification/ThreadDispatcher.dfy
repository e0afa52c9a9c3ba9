/** The bookkeeping state of the thread dispatcher and the critical sections
    that change it. Each public operation (and each of a worker's two locked
    steps) is one atomic method on `Dispatcher`; the threads, the mutex and the
    condition variable around them are not part of this model. */
module ThreadDispatcher {
  import opened Uint32
  import opened Lists

  /** A queued job: its id and its opaque body. */
  datatype Work<J> = Work(id: U32, body: J)

  datatype Option<T> = None | Some(value: T)

  /** The static state of the dispatcher. `J` stands for the job bodies,
      which the dispatcher stores and hands over but never inspects. */
  class Dispatcher<J> {
    var workID: U32                    // the id the next dispatch hands out
    var workInProgress: U32            // dispatched jobs not yet completed
    var workQueue: seq<Work<J>>        // FIFO of jobs no worker has taken yet
    var workDone: seq<U32>             // completed ids not yet consumed
    var shouldQuit: bool

    ghost var issued: seq<U32>         // every id dispatch has returned, in order
    ghost var taken: nat               // how many jobs workers have taken off the queue
    ghost var executing: multiset<U32> // ids of jobs taken and not yet completed
    ghost var completed: seq<U32>      // every id ever appended to workDone, in order

    ghost predicate Valid()
      reads this
    {
      IdsValid() && CountsValid()
    }

    /** Ids are handed out 0, 1, 2, ... by a wrapping 32-bit counter, and the
        queue holds the jobs not yet taken, in dispatch order. */
    ghost predicate IdsValid()
      reads this`issued, this`taken, this`workID, this`workQueue
    {
      (forall k :: 0 <= k < |issued| ==> issued[k] == k % WORD) &&
      workID == |issued| % WORD &&
      |issued| == taken + |workQueue| &&
      (forall i :: 0 <= i < |workQueue| ==> workQueue[i].id == issued[taken + i])
    }

    /** Every taken job is either executing or completed, never lost; the
        completion list holds only completions, each at most as often as it
        completed; the in-progress counter counts queued and executing jobs,
        modulo 2^32. */
    ghost predicate CountsValid()
      reads this`issued, this`taken, this`workQueue, this`workDone,
            this`executing, this`completed, this`workInProgress
    {
      taken <= |issued| &&
      multiset(issued[..taken]) == executing + multiset(completed) &&
      multiset(workDone) <= multiset(completed) &&
      workInProgress == (|workQueue| + |executing|) % WORD
    }

    /** The zero-initialised static state, before `init`. */
    constructor ()
      ensures Valid()
      ensures workID == 0 && workInProgress == 0 && !shouldQuit
      ensures workQueue == [] && workDone == []
      ensures issued == [] && executing == multiset{} && completed == []
    {
      workID, workInProgress := 0, 0;
      workQueue, workDone := [], [];
      shouldQuit := false;
      issued, taken, executing, completed := [], 0, multiset{}, [];
    }

    /** `init`: resets the in-progress counter (thread creation is not modelled).
        Called while nothing is queued or executing, the reset agrees with the count. */
    method Init()
      requires Valid() && workQueue == [] && executing == multiset{}
      modifies this
      ensures Valid()
      ensures workInProgress == 0
      ensures workID == old(workID) && workQueue == old(workQueue) && workDone == old(workDone)
      ensures shouldQuit == old(shouldQuit)
      ensures issued == old(issued) && taken == old(taken)
      ensures executing == old(executing) && completed == old(completed)
    {
      workInProgress := 0;
    }

    /** `dispatch`: hands out the current id, counts the job as in progress and
        appends it to the back of the queue. */
    method Dispatch(body: J) returns (id: U32)
      requires Valid()
      modifies this
      ensures Valid()
      ensures id == old(workID) && workID == Inc(old(workID))
      ensures workInProgress == Inc(old(workInProgress))
      ensures workQueue == old(workQueue) + [Work(id, body)]
      ensures workDone == old(workDone) && shouldQuit == old(shouldQuit)
      ensures issued == old(issued) + [id] && taken == old(taken)
      ensures executing == old(executing) && completed == old(completed)
    {
      IncOfMod(|issued|);
      IncOfMod(|workQueue| + |executing|);
      id := workID;
      workID := Inc(workID);
      workInProgress := Inc(workInProgress);
      workQueue := workQueue + [Work(id, body)];
      issued := issued + [id];
      assert issued[..taken] == old(issued)[..taken];
    }

    /** A worker's first locked step: unless the quit flag is set or the queue is
        empty, it takes the front job off the queue and starts executing it. */
    method TryTake() returns (job: Option<Work<J>>)
      requires Valid()
      modifies this
      ensures Valid()
      ensures job.None? <==> old(shouldQuit) || old(workQueue) == []
      ensures job.None? ==> unchanged(this)
      ensures job.Some? ==> job.value == old(workQueue)[0] && workQueue == old(workQueue)[1..]
      ensures job.Some? ==> executing == old(executing) + multiset{job.value.id} && taken == old(taken) + 1
      ensures workID == old(workID) && workInProgress == old(workInProgress)
      ensures workDone == old(workDone) && shouldQuit == old(shouldQuit)
      ensures issued == old(issued) && completed == old(completed)
    {
      if !shouldQuit && |workQueue| > 0 {
        var w := workQueue[0];
        assert w.id == issued[taken];
        assert issued[..taken + 1] == issued[..taken] + [w.id];
        workQueue := workQueue[1..];
        executing := executing + multiset{w.id};
        taken := taken + 1;
        job := Some(w);
      } else {
        job := None;
      }
    }

    /** A worker's second locked step: the job it executed is recorded at the end
        of the completion list and no longer counted as in progress. */
    method Complete(id: U32)
      requires Valid() && id in executing
      modifies this
      ensures Valid()
      ensures workDone == old(workDone) + [id]
      ensures workInProgress == Dec(old(workInProgress))
      ensures executing == old(executing) - multiset{id} && completed == old(completed) + [id]
      ensures workID == old(workID) && workQueue == old(workQueue) && shouldQuit == old(shouldQuit)
      ensures issued == old(issued) && taken == old(taken)
    {
      CompletionKeepsCounts(executing, completed, workDone, id);
      DecOfMod(|workQueue| + |executing|);
      workDone := workDone + [id];
      workInProgress := Dec(workInProgress);
      executing := executing - multiset{id};
      completed := completed + [id];
    }

    /** `finished()`: the in-progress counter is zero. That is the case exactly when
        the number of queued and executing jobs is a multiple of 2^32; below 2^32
        pending jobs, exactly when nothing is queued or executing. */
    method Finished() returns (r: bool)
      requires Valid()
      ensures r <==> workInProgress == 0
      ensures r <==> (|workQueue| + |executing|) % WORD == 0
      ensures |workQueue| + |executing| < WORD ==> (r <==> workQueue == [] && executing == multiset{})
    {
      r := workInProgress == 0;
    }

    /** `finished(id)`: whether `id` is in the completion list; nothing is consumed. */
    method FinishedId(id: U32) returns (r: bool)
      ensures r <==> id in workDone
    {
      var it := Find(workDone, id);
      r := it != |workDone|;
    }

    /** `finished(ids)`: whether every one of `ids` is in the completion list
        (vacuously so for no ids); nothing is consumed. */
    method FinishedAll(ids: seq<U32>) returns (r: bool)
      ensures r <==> forall i :: 0 <= i < |ids| ==> ids[i] in workDone
    {
      var i := 0;
      while i < |ids|
        invariant i <= |ids|
        invariant forall k :: 0 <= k < i ==> ids[k] in workDone
      {
        var it := Find(workDone, ids[i]);
        if it == |workDone| {
          return false;
        }
        i := i + 1;
      }
      return true;
    }

    /** `wait()` returns once the queue is empty. Jobs may still be executing
        then: the in-progress counter counts exactly those. */
    function WaitCanReturn(): (r: bool)
      reads this
      requires Valid()
      ensures r <==> workQueue == []
      ensures r ==> workInProgress == |executing| % WORD
    {
      |workQueue| == 0
    }

    /** `wait(id)` once its spin has seen `id` in the completion list: every
        occurrence of `id` is removed, the other entries keep their order. */
    method WaitOne(id: U32)
      requires Valid() && id in workDone
      modifies this
      ensures Valid()
      ensures workDone == RemoveAll(old(workDone), id)
      ensures id !in workDone && |workDone| < |old(workDone)|
      ensures workID == old(workID) && workInProgress == old(workInProgress)
      ensures workQueue == old(workQueue) && shouldQuit == old(shouldQuit)
      ensures issued == old(issued) && taken == old(taken)
      ensures executing == old(executing) && completed == old(completed)
    {
      RemoveAllCount(workDone, id);
      assert |RemoveAll(workDone, id)| == |multiset(workDone)[id := 0]| < |multiset(workDone)|;
      workDone := RemoveAll(workDone, id);
    }

    /** `wait(ids)`: `wait(id)` for each id in order; every id must be present at
        its turn, which rules out an id listed twice. */
    method WaitAll(ids: seq<U32>)
      requires Valid() && WaitAllEnabled(workDone, ids)
      modifies this
      ensures Valid()
      ensures workDone == ConsumeAll(old(workDone), ids)
      ensures forall i :: 0 <= i < |ids| ==> ids[i] !in workDone
      ensures workID == old(workID) && workInProgress == old(workInProgress)
      ensures workQueue == old(workQueue) && shouldQuit == old(shouldQuit)
      ensures issued == old(issued) && taken == old(taken)
      ensures executing == old(executing) && completed == old(completed)
    {
      var i := 0;
      while i < |ids|
        invariant i <= |ids|
        invariant Valid()
        invariant WaitAllEnabled(workDone, ids[i..])
        invariant ConsumeAll(workDone, ids[i..]) == ConsumeAll(old(workDone), ids)
        invariant workID == old(workID) && workInProgress == old(workInProgress)
        invariant workQueue == old(workQueue) && shouldQuit == old(shouldQuit)
        invariant issued == old(issued) && taken == old(taken)
        invariant executing == old(executing) && completed == old(completed)
      {
        assert ids[i..][0] == ids[i] && ids[i..][1..] == ids[i + 1..];
        WaitOne(ids[i]);
        i := i + 1;
      }
      assert ids[i..] == [];
      ConsumeAllCount(old(workDone), ids);
    }

    /** `clearFinished`: forgets every completed id. */
    method ClearFinished()
      requires Valid()
      modifies this
      ensures Valid()
      ensures workDone == []
      ensures workID == old(workID) && workInProgress == old(workInProgress)
      ensures workQueue == old(workQueue) && shouldQuit == old(shouldQuit)
      ensures issued == old(issued) && taken == old(taken)
      ensures executing == old(executing) && completed == old(completed)
    {
      workDone := [];
    }

    /** `shutdown`, without the joins: sets the quit flag, then clears the
        completion list. Jobs still queued stay queued and are never taken. */
    method Shutdown()
      requires Valid()
      modifies this
      ensures Valid()
      ensures shouldQuit && workDone == []
      ensures workID == old(workID) && workInProgress == old(workInProgress)
      ensures workQueue == old(workQueue)
      ensures issued == old(issued) && taken == old(taken)
      ensures executing == old(executing) && completed == old(completed)
    {
      shouldQuit := true;
      ClearFinished();
    }
  }

  /** Moving a completed id from the executing jobs to the completions keeps the
      conservation of taken jobs and keeps the completion list within the completions. */
  lemma CompletionKeepsCounts(executing: multiset<U32>, completed: seq<U32>, done: seq<U32>, id: U32)
    requires id in executing && multiset(done) <= multiset(completed)
    ensures executing + multiset(completed) == (executing - multiset{id}) + multiset(completed + [id])
    ensures multiset(done + [id]) <= multiset(completed + [id])
    ensures |executing - multiset{id}| == |executing| - 1
  {
  }

  /** Until the counter wraps, dispatch hands out pairwise distinct, increasing ids,
      and the queue holds its jobs in increasing id order. */
  lemma IdsIncreaseUntilWrap<J>(d: Dispatcher<J>)
    requires d.Valid() && |d.issued| <= WORD
    ensures forall i, j :: 0 <= i < j < |d.issued| ==> d.issued[i] < d.issued[j]
    ensures forall i, j :: 0 <= i < j < |d.workQueue| ==> d.workQueue[i].id < d.workQueue[j].id
  {
  }

  /** Once 2^32 ids have been handed out, the counter has wrapped and the next id
      repeats the first one. */
  lemma IdsRepeatAfterWrap<J>(d: Dispatcher<J>)
    requires d.Valid() && |d.issued| > WORD
    ensures d.issued[WORD] == d.issued[0]
  {
  }

  /** Every id in the completion list, and every executing id, was handed out by dispatch. */
  lemma DoneIdsWereDispatched<J>(d: Dispatcher<J>)
    requires d.Valid()
    ensures forall x :: x in d.workDone ==> x in d.issued
    ensures forall x :: x in d.executing ==> x in d.issued
  {
    forall x | x in d.workDone ensures x in d.issued {
      assert multiset(d.workDone)[x] > 0;
      assert multiset(d.completed)[x] > 0;
      assert multiset(d.issued[..d.taken])[x] > 0;
      assert x in d.issued[..d.taken];
    }
    forall x | x in d.executing ensures x in d.issued {
      assert multiset(d.issued[..d.taken])[x] > 0;
      assert x in d.issued[..d.taken];
    }
  }

  /** Until the counter wraps, a completed id is retired: it completed exactly
      once, it is not executing and no queued job carries it. So no later
      `Complete` can append it to the completion list again, and once `wait(id)`
      has consumed it, a second `wait(id)` never gets past its spin, however the
      workers' steps interleave with it. */
  lemma CompletedIdsAreRetired<J>(d: Dispatcher<J>, id: U32)
    requires d.Valid() && |d.issued| <= WORD && id in d.completed
    ensures multiset(d.completed)[id] == 1
    ensures id !in d.executing
    ensures forall i :: 0 <= i < |d.workQueue| ==> d.workQueue[i].id != id
  {
    var prefix := d.issued[..d.taken];
    assert NoDuplicates(prefix) by {
      forall i, j | 0 <= i < j < |prefix| ensures prefix[i] != prefix[j] {
        assert prefix[i] == i && prefix[j] == j;
      }
    }
    NoDuplicatesCount(prefix, id);
    assert multiset(prefix)[id] == d.executing[id] + multiset(d.completed)[id];
    assert multiset(d.completed)[id] > 0;
    assert id in prefix;
    var k :| 0 <= k < |prefix| && prefix[k] == id;
    assert id == k;
    forall i | 0 <= i < |d.workQueue| ensures d.workQueue[i].id != id {
      assert d.workQueue[i].id == d.issued[d.taken + i] == d.taken + i;
    }
  }

  /** A dispatcher run: a job is taken, so the queue is empty and `wait()` may
      return, yet the job still executes and `finished()` is false. It then
      completes; `finished(id)` holds until `wait(id)` consumes it, and not after. */
  method WaitDoesNotMeanFinished() returns (waitReturned: bool, allFinished: bool, before: bool, after: bool)
    ensures waitReturned && !allFinished
    ensures before && !after
  {
    var d := new Dispatcher<int>();
    d.Init();
    var id := d.Dispatch(7);
    var job := d.TryTake();
    waitReturned := d.WaitCanReturn();
    allFinished := d.Finished();
    d.Complete(id);
    before := d.FinishedId(id);
    d.WaitOne(id);
    after := d.FinishedId(id);
  }

  /** After `shutdown`, no worker takes a job, even when jobs are still queued. */
  method NoTakeAfterShutdown() returns (queued: nat, job: Option<Work<int>>)
    ensures queued == 1 && job == None
  {
    var d := new Dispatcher<int>();
    var id := d.Dispatch(1);
    d.Shutdown();
    queued := |d.workQueue|;
    job := d.TryTake();
  }
}
