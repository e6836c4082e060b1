/** The ThreadMgr class of src/threadDeath/threadDeath3.cc.

    The class keeps its registry and its stack of terminated ids in its own
    fields and changes them in place.  Each method's bookkeeping is taken as
    one atomic step, proved to move the object from one state to the next
    exactly as the matching step function of module Bookkeeping does.  What the thread library answers
    (pthread_create, pthread_join, pthread_cancel) arrives as parameters. */
module ThreadManager {
  import opened Bookkeeping

  class ThreadMgr {
    /** m_ids: every registered thread with its argument record. */
    var ids: map<ThreadId, FuncArguments>
    /** m_terminated: ids of exited, unjoined threads; the top is the last element. */
    var terminated: seq<ThreadId>
    /** The exit value the thread library keeps for each exited, unjoined thread. */
    var exits: map<ThreadId, Ptr>

    function State(): Book
      reads this
    {
      Book(ids, terminated, exits)
    }

    ghost predicate Valid()
      reads this
    {
      State().Valid()
    }

    /** A new manager: nothing registered, nothing terminated. */
    constructor ()
      ensures Valid() && State() == Empty
    {
      ids, terminated, exits := map[], [], map[];
    }

    /** cancel_thread: unregisters `tid` and returns what pthread_cancel
        reported (`cancelStatus`); the terminated stack is not touched. */
    method CancelThread(tid: ThreadId, cancelStatus: int) returns (ret: int)
      requires Valid()
      modifies this
      ensures Valid()
      ensures State() == CancelStep(old(State()), tid)
      ensures ret == cancelStatus
    {
      ids := ids - {tid};
      ret := cancelStatus;
    }

    /** condWait once its wait is over: the stack is not empty (the blocking
        loop on the condition variable is what guarantees it), and the top
        thread is removed as removeTerminated does. */
    method CondWait(joinStatus: int) returns (ret: int, value: Option<Ptr>)
      requires Valid() && terminated != []
      modifies this
      ensures Valid()
      ensures Removal(State(), ret, value) == RemoveStep(old(State()), joinStatus)
      ensures joinStatus == 0 ==> value == Some(old(exits)[old(State()).Top()])
    {
      ret, value := RemoveTerminated(joinStatus);
    }

    /** createThread: `createStatus` is what pthread_create returned and
        `newId` the id it produced.  Returns the new id after registering
        it, or 0 on failure. */
    method CreateThread(func: Ptr, arg: Ptr, createStatus: int, newId: ThreadId) returns (tid: ThreadId)
      requires Valid()
      modifies this
      ensures Valid()
      ensures (State(), tid) == CreateStep(old(State()), func, arg, createStatus, newId)
    {
      var arguments := FuncArguments(func, arg);
      if createStatus == 0 {
        AddId(newId, arguments);
        return newId;
      }
      return 0;
    }

    /** threadsActive: the number of registered threads. */
    method ThreadsActive() returns (n: int)
      ensures n == |ids|
    {
      n := |ids|;
    }

    /** no_threads_terminated: whether the stack is empty. */
    method NoThreadsTerminated() returns (none: bool)
      ensures none <==> terminated == []
    {
      none := |terminated| == 0;
    }

    /** The trampoline func after the user function has returned `result`:
        the worker `self` pushes itself (addTerminated) and exits with
        `result`.  A worker exits once, so the library holds no exit value
        for it yet. */
    method Func(self: ThreadId, result: Ptr)
      requires Valid() && self !in exits
      modifies this
      ensures Valid()
      ensures State() == FinishStep(old(State()), self, result)
    {
      AddTerminated(self);
      exits := exits[self := result];
    }

    /** addTerminated: pushes `self` on the terminated stack. */
    method AddTerminated(self: ThreadId)
      modifies this
      ensures terminated == old(terminated) + [self]
      ensures ids == old(ids) && exits == old(exits)
    {
      terminated := terminated + [self];
    }

    /** removeTerminated: `joinStatus` is what pthread_join returned for the
        top thread.  The thread is unregistered and popped only if the join
        succeeded; `value` is what the join stored through return_val. */
    method RemoveTerminated(joinStatus: int) returns (ret: int, value: Option<Ptr>)
      requires Valid()
      modifies this
      ensures Valid()
      ensures Removal(State(), ret, value) == RemoveStep(old(State()), joinStatus)
    {
      ret, value := 0, None;
      if terminated != [] {
        var tempId := terminated[|terminated| - 1];
        ret := joinStatus;
        if ret == 0 {
          value := Some(exits[tempId]);
          exits := exits - {tempId};
          ids := ids - {tempId};
          terminated := terminated[..|terminated| - 1];
        }
      }
    }

    /** addID: std::map::insert of (id, args). */
    method AddId(id: ThreadId, args: FuncArguments)
      modifies this
      ensures State() == AddIdStep(old(State()), id, args)
    {
      if id !in ids {
        ids := ids[id := args];
      }
    }
  }

  /** Two workers spawned, the first to finish returning 10 and the second
      20: the controller's condWait calls reap the later one first, and the
      loop `while (threadsActive())` of the example ends after two rounds. */
  method LifoScenario() returns (first: Option<Ptr>, second: Option<Ptr>, active: int)
    ensures first == Some(20) && second == Some(10) && active == 0
  {
    var m := new ThreadMgr();
    var a := m.CreateThread(1, 0, 0, 101);
    var b := m.CreateThread(2, 0, 0, 102);
    m.Func(a, 10);
    m.Func(b, 20);
    var ret;
    ret, first := m.CondWait(0);
    ret, second := m.CondWait(0);
    active := m.ThreadsActive();
  }

  /** A failed join keeps the thread on top; the retry reaps it. */
  method RetryScenario() returns (failed: int, stillThere: bool, value: Option<Ptr>)
    ensures failed == 3 && stillThere && value == Some(7)
  {
    var m := new ThreadMgr();
    var a := m.CreateThread(1, 0, 0, 5);
    m.Func(a, 7);
    var v;
    failed, v := m.CondWait(3);
    var none := m.NoThreadsTerminated();
    stillThere := !none;
    var ret;
    ret, value := m.CondWait(0);
  }

  /** Example 4 of main in threadDeath3.cc: two managers, each with its own thread;
      each keeps its own registry and stack. */
  method TwoManagersScenario() returns (active: int, active1: int, noneTerminated: bool)
    ensures active == 1 && active1 == 0 && noneTerminated
  {
    var m := new ThreadMgr();
    var m1 := new ThreadMgr();
    var t1 := m1.CreateThread(1, 11, 0, 201);
    var t := m.CreateThread(1, 12, 0, 202);
    m1.Func(t1, 0);
    var ret, v := m1.CondWait(0);
    active := m.ThreadsActive();
    active1 := m1.ThreadsActive();
    var none := m.NoThreadsTerminated();
    noneTerminated := none;
  }
}
