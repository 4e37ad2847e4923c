/**
 The procedures of the thread pool (src/plugin/core/thread/thread_pool_module.cc and .h), each proved to
 take steps of ThreadPool. The loops are verified for a pass that no other thread interrupts; arbitrary
 interleavings are the runs of ThreadPool.
 */
module ThreadCells {
  import opened Bytes
  import opened Fifo
  import opened Guids
  import opened ThreadPool

  /** The tasks that have an end function. */
  function WithEnd(ts: seq<Task>): seq<Task>
    decreases |ts|
  {
    if ts == [] then []
    else WithEnd(ts[..|ts| - 1]) + if ts[|ts| - 1].ends then [ts[|ts| - 1]] else []
  }

  class ThreadPoolModule {
    var taskLists: seq<seq<Task>>
    var taskResult: seq<Task>
    var count: nat
    ghost var state: State

    ghost predicate Valid()
      reads this
    {
      && |taskLists| == |state.workers| > 0 && taskResult == state.results && count == |state.submitted|
      && forall w :: 0 <= w < |taskLists| ==> taskLists[w] == state.workers[w].queue
    }

    /** Start, with one cell for each processor. */
    constructor (cpuCount: nat)
      requires cpuCount > 0
      ensures Valid() && state == Initial(cpuCount)
    {
      taskLists, taskResult, count := seq(cpuCount, _ => []), [], 0;
      state := Initial(cpuCount);
    }

    method DoAsyncTask(producer: nat, id: Guid, work: Work, ends: bool)
      requires Valid()
      modifies this
      ensures Valid() && state == Next(old(state), Submit(producer, id, work, ends))
    {
      var task := Task(count, producer, id, work, ends);
      var index := 0;
      if id != NULL_GUID {
        index := Unsigned64(id.data) % |taskLists|;
      }
      taskLists := taskLists[index := taskLists[index] + [task]];
      count := count + 1;
      state := Next(state, Submit(producer, id, work, ends));
    }

    /** One turn of the inner loop of ThreadCell::Update: the thread function, then the result. */
    method RunTask(w: nat)
      requires Valid() && w < |taskLists| && taskLists[w] != [] && state.workers[w].running.None?
      modifies this
      ensures Valid() && state == Next(Next(old(state), Start(w, 0)), Finish(w))
    {
      var task := taskLists[w][0];
      taskLists := taskLists[w := taskLists[w][1..]];
      if task.ends {
        taskResult := taskResult + [task];
      }
      assert RemoveAt(state.workers[w].queue, 0) == state.workers[w].queue[1..];
      state := Next(Next(state, Start(w, 0)), Finish(w));
    }

    /** The inner loop of ThreadCell::Update: everything queued runs, in order. */
    method UpdateCell(w: nat)
      requires Valid() && w < |taskLists| && state.workers[w].running.None?
      modifies this
      ensures Valid() && |taskLists| == old(|taskLists|) && taskLists[w] == []
      ensures state.started == old(state.started) + old(taskLists[w])
      ensures state.finished == old(state.finished) + old(taskLists[w])
      ensures taskResult == old(taskResult) + WithEnd(old(taskLists[w]))
      ensures forall v :: 0 <= v < |taskLists| && v != w ==> taskLists[v] == old(taskLists[v])
    {
      ghost var todo := taskLists[w];
      ghost var k := 0;
      assert todo[0..] == todo;
      while taskLists[w] != []
        invariant Valid() && |taskLists| == old(|taskLists|) && state.workers[w].running.None?
        invariant k <= |todo| && taskLists[w] == todo[k..]
        invariant state.started == old(state.started) + todo[..k]
        invariant state.finished == old(state.finished) + todo[..k]
        invariant taskResult == old(taskResult) + WithEnd(todo[..k])
        invariant forall v :: 0 <= v < |taskLists| && v != w ==> taskLists[v] == old(taskLists[v])
        decreases |taskLists[w]|
      {
        RunTask(w);
        OneMore(old(state.started), todo, k);
        OneMore(old(state.finished), todo, k);
        EndsOneMore(old(taskResult), todo, k);
        k := k + 1;
      }
      assert todo[..k] == todo;
    }

    lemma OneMore(before: seq<Task>, todo: seq<Task>, k: nat)
      requires k < |todo|
      ensures before + todo[..k] + [todo[k]] == before + todo[..k + 1]
    {
    }

    lemma EndsOneMore(before: seq<Task>, todo: seq<Task>, k: nat)
      requires k < |todo|
      ensures before + WithEnd(todo[..k]) + (if todo[k].ends then [todo[k]] else []) == before + WithEnd(todo[..k + 1])
    {
      assert todo[..k + 1][..k] == todo[..k];
      AppendAssociative(before, WithEnd(todo[..k]), if todo[k].ends then [todo[k]] else []);
    }

    /** UpdateTaskResult: the end functions of all results, in order. */
    method UpdateTaskResult()
      requires Valid()
      modifies this
      ensures Valid() && taskResult == [] && state.ended == old(state.ended) + old(taskResult)
      ensures state.workers == old(state.workers)
    {
      ghost var todo := taskResult;
      ghost var k := 0;
      assert todo[0..] == todo;
      while taskResult != []
        invariant Valid() && k <= |todo| && taskResult == todo[k..]
        invariant state.workers == old(state.workers)
        invariant state.ended == old(state.ended) + todo[..k]
        decreases |taskResult|
      {
        taskResult := taskResult[1..];
        assert RemoveAt(state.results, 0) == state.results[1..];
        state := Next(state, End(0));
        OneMore(old(state.ended), todo, k);
        k := k + 1;
      }
      assert todo[..k] == todo;
    }
  }
}
