# ThreadMgr bookkeeping and Tmycpy, modelled in Dafny

This project models two pieces of the CPP_Examples repository.

**ThreadMgr** (`src/threadDeath/threadDeath3.cc`) is a small thread supervisor.
It starts threads with `createThread` and registers each new id, with the
argument record it built, in a map `m_ids`. Every thread runs through the
trampoline `func`. When the user function returns, the trampoline pushes the
thread's own id on a stack `m_terminated` (`addTerminated`) and exits with the
user function's return value. A controller calls `condWait`. It blocks until
the stack is not empty, then `removeTerminated` joins the thread on top of the
stack. Only when the join succeeds does it unregister that thread and pop it.
`cancel_thread` unregisters a thread. `threadsActive` and
`no_threads_terminated` are read-only queries.

Every read and write of the map and the stack happens with the data mutex
held. Each operation's bookkeeping is modelled as one atomic step, although
`createThread`, `func` and `condWait` also do work outside that mutex (see
"Left out"):

- `bookkeeping.dfy` (module `Bookkeeping`) gives the manager's state as a
  value `Book`. Each operation is a step function from the old state to the
  new one. The lemmas about sequences of steps live here too: the LIFO drain,
  retain-on-failed-join and registry accounting.
- `thread_mgr.dfy` (module `ThreadManager`) is the class `ThreadMgr`. Its
  fields `ids` and `terminated` stand for `m_ids` and `m_terminated` (the top
  of the stack is the last element). Its methods update those fields in
  place. Each method is proved to take the object's state exactly as the
  matching step function does. `LifoScenario` and `TwoManagersScenario`
  follow Examples 2 and 4 of `main` in reduced form; `RetryScenario`
  exercises the failed-join branch of `removeTerminated`.

The thread library's answers are method parameters:

- `createStatus` and `newId` for `pthread_create`;
- `joinStatus` for `pthread_join`;
- `cancelStatus` for `pthread_cancel`;
- `result` for the user function's return value.

The library also keeps each exited thread's value until the thread is joined.
The model holds that value in a third field, `exits`. `condWait` hands it back
through `return_val`. `Valid()` says two things: a thread is on the stack at
most once, and the library holds the exit value of every thread on the stack.

**Tmycpy** (`src/template/simpleTemplate.cc`) is a template function. It
copies array `a` into array `b` element by element, up to and including the
first 0, and counts the copied elements. It then compares the first `size`
elements of both arrays. It returns -1 if they differ and the count
otherwise. `simple_template.dfy` (module `SimpleTemplate`) models it as a
method over two arrays with a `while` loop, for any element type. The
terminator is passed in as `zero`. The method is proved against the
functions `FirstZero`, `CopyUpToZero` and `TmycpyResult`. The two calls in
`main` are replayed as methods.

The model adds nothing that the code does not have:

- The code has no "idle" result. `condWait` on an empty stack blocks. The
  model requires a non-empty stack instead.
- `cancel_thread` has no "not found" result. It returns `pthread_cancel`'s
  status whether or not the id was registered.
- A failed spawn returns thread id 0. The code has no separate signal for it.
- The worker's value is whatever the user function returned. There is no
  separate failure outcome.
- The code uses two mutexes, one for the data and one for the condition
  variable, both static and so shared by all instances. The bookkeeping itself
  still lives in per-instance fields.

## Model

| member | source | states |
|---|---|---|
| Bookkeeping.AddIdStep | src/threadDeath/threadDeath3.cc:385-396 | `std::map::insert`: the id is registered afterwards. An existing entry keeps its old record. A new id gets `args` and the registry grows by one. The stack and the exit values are untouched. |
| Bookkeeping.CreateStep | src/threadDeath/threadDeath3.cc:203-237 | Create status 0: returns the new id and registers it via `addID`. Any other status: returns 0 and leaves the state unchanged. The stack is never touched. |
| Bookkeeping.CancelStep | src/threadDeath/threadDeath3.cc:126-136 | The id is absent afterwards. Every other entry is kept. The registry shrinks by one exactly when the id was present. The stack is untouched. |
| Bookkeeping.FinishStep | src/threadDeath/threadDeath3.cc:296-333 | A worker finishing puts its own id on top of the stack, above the unchanged old stack. The library records its return value. The registry is unchanged and `Valid` is preserved. |
| Bookkeeping.FinishStepExitKeys | src/threadDeath/threadDeath3.cc:296-333 | A finishing worker adds an exit value for itself and for no other id. |
| Bookkeeping.RemoveStep | src/threadDeath/threadDeath3.cc:336-383 | Empty stack: returns 0 and changes nothing. Failed join: returns its status and changes nothing, so the id stays on top. Successful join: returns 0, yields the top thread's exit value, pops exactly that id and erases it from the registry. Registry size accounting. Keeps `Valid`. |
| Bookkeeping.Popped | src/threadDeath/threadDeath3.cc:362-373 | After a successful join, the stack is the old stack minus its top, and the top id is gone from the registry and from the library. Keeps `Valid` (the popped id occurs nowhere below). |
| Bookkeeping.FinishThenReap | src/threadDeath/threadDeath3.cc:297-372 | A worker finishing and then being joined returns the stack to its old state. The worker leaves the registry as it would on cancel. The join yields exactly what the worker's function returned. |
| Bookkeeping.RetryAfterFailedJoin | src/threadDeath/threadDeath3.cc:357-375 | After a failed join, a retried successful join reaps the same thread with the same effect as if the failure had not happened. |
| Bookkeeping.FinishAll | src/threadDeath/threadDeath3.cc:316-333 | Workers xs finishing in order leave the stack as old stack + xs, with the registry unchanged. Each xs[i] has exit value vs[i], and earlier exit values are kept. |
| Bookkeeping.FinishAllExitKeys | src/threadDeath/threadDeath3.cc:296-333 | Workers xs finishing add exit values for exactly the ids in xs and for no other id. |
| Bookkeeping.ReapAll | src/threadDeath/threadDeath3.cc:336-383 | n successful joins keep `Valid`, reap n ids and yield n values. |
| Bookkeeping.ReapAllFirstStep | src/threadDeath/threadDeath3.cc:336-383 | The first of n successful joins is `removeTerminated` with join status 0 itself: it returns 0 and yields the first drained value, and the remaining n - 1 joins start from the state it leaves. |
| Bookkeeping.ReapAllOrderAt | src/threadDeath/threadDeath3.cc:355-372 | The j-th of n successive successful joins reaps the j-th id from the top of the stack. |
| Bookkeeping.ReapAllValueAt | src/threadDeath/threadDeath3.cc:362-363 | Each successful join yields the exit value of the very thread it reaps. |
| Bookkeeping.ReapAllLeavesBelow | src/threadDeath/threadDeath3.cc:371-372 | n successful joins leave the part of the stack below the n topmost ids unchanged. |
| Bookkeeping.ReapAllRegistry | src/threadDeath/threadDeath3.cc:368-369 | After n successful joins, the registry is the old one minus exactly the reaped ids. |
| Bookkeeping.LifoDrainAt | src/threadDeath/threadDeath3.cc:323-372 | After workers xs finish in order, the j-th join reaps xs[|xs|-1-j] and yields that worker's value. |
| Bookkeeping.LifoDrain | src/threadDeath/threadDeath3.cc:316-383 | LIFO drain: after workers xs finish in order, |xs| successful joins reap them in reverse order. Each join yields its own worker's value. The stack is back to what it was. Exactly the workers xs have left the registry. |
| Bookkeeping.AllReapedLeavesNoneActive | src/threadDeath/threadDeath3.cc:544-564 | When the registry holds exactly the spawned workers and all of them finish and are reaped, stack and registry end empty, so the `while (m.threadsActive())` loop of `main` stops. |
| ThreadManager.ThreadMgr.constructor | src/threadDeath/threadDeath3.cc:80-97 | A new manager has an empty registry, an empty stack and no exit values. |
| ThreadManager.ThreadMgr.CancelThread | src/threadDeath/threadDeath3.cc:100-137 | Updates the fields as `CancelStep` does and returns `pthread_cancel`'s status. |
| ThreadManager.ThreadMgr.CondWait | src/threadDeath/threadDeath3.cc:140-177 | Once the stack is non-empty (the wait loop's exit condition), does what `removeTerminated` does. On a successful join it yields the top thread's exit value. |
| ThreadManager.ThreadMgr.CreateThread | src/threadDeath/threadDeath3.cc:181-238 | Builds the argument record and, on create status 0, registers it through `AddId`. Returns what `CreateStep` returns and leaves the state `CreateStep` gives. |
| ThreadManager.ThreadMgr.ThreadsActive | src/threadDeath/threadDeath3.cc:241-248 | Returns exactly the registry size. Changes nothing. |
| ThreadManager.ThreadMgr.NoThreadsTerminated | src/threadDeath/threadDeath3.cc:251-259 | Returns true exactly when the stack is empty. Changes nothing. |
| ThreadManager.ThreadMgr.Func | src/threadDeath/threadDeath3.cc:265-314 | The trampoline after the user function returns: pushes the worker's own id through `AddTerminated` and exits with the result, as `FinishStep` says. |
| ThreadManager.ThreadMgr.AddTerminated | src/threadDeath/threadDeath3.cc:317-333 | Pushes the id on top of the stack. The registry and the exit values are unchanged. |
| ThreadManager.ThreadMgr.RemoveTerminated | src/threadDeath/threadDeath3.cc:336-383 | Updates the fields, returns the join status and writes `return_val` exactly as `RemoveStep` says. |
| ThreadManager.ThreadMgr.AddId | src/threadDeath/threadDeath3.cc:386-396 | Updates the registry as `AddIdStep` does. |
| ThreadManager.LifoScenario | src/threadDeath/threadDeath3.cc:534-564 | Two spawned workers finish with 10, then 20. The two `condWait` calls yield 20, then 10, and no thread is active afterwards. |
| ThreadManager.RetryScenario | src/threadDeath/threadDeath3.cc:357-375 | A failed join returns its status and the thread stays on the stack. The retry yields that thread's value. |
| ThreadManager.TwoManagersScenario | src/threadDeath/threadDeath3.cc:618-644 | Two managers, each with its own thread. Reaping on one manager leaves the other's registry and stack as they were. |
| SimpleTemplate.FirstZero | src/template/simpleTemplate.cc:64-67 | The index k where the copy loop stops is the first terminator in `a`: a[k] is zero and nothing before it is. |
| SimpleTemplate.CopyUpToZero | src/template/simpleTemplate.cc:64-67 | The contents of `b` after the copy loop: same length as `b`, a[0..k] up to and including the first terminator, and `b`'s own elements after k. |
| SimpleTemplate.TmycpyResult | src/template/simpleTemplate.cc:69-74 | The result is -1 or k + 1 (the count, including the terminator). It is -1 exactly when some element between k and `size` differs between `a` and the untouched part of `b`. |
| SimpleTemplate.Tmycpy | src/template/simpleTemplate.cc:32-75 | `a` is not written. b[0..k] becomes a[0..k]. The elements of `b` after k keep their values. The result is `TmycpyResult`: the count k + 1, or -1 when the first `size` elements differ. The loop keeps `count == i + 1`. |
| SimpleTemplate.WholeArrayCopy | src/template/simpleTemplate.cc:21-26 | When the only zero in `a` is its last element and `b` has the same length, `b` becomes equal to `a` and the result is that length. |
| SimpleTemplate.IntExample | src/template/simpleTemplate.cc:104-112 | The int call of `main` returns 10 and `ib` becomes {9,8,...,1,0}. |
| SimpleTemplate.CharExample | src/template/simpleTemplate.cc:79-90 | The char call of `main` returns 10 and `ca2` becomes "123456789" with its terminator. |

## Left out

- Concurrency is not modelled. This covers the data mutex, the condition-variable mutex, the condition variable and their static initialisation. It also covers the broadcast in `addTerminated` and the blocking `while`/`pthread_cond_wait` loop in `condWait`. Each operation is one atomic step, and the wait is replaced by the precondition that the stack is not empty.
- `pthread_create`, `pthread_join`, `pthread_cancel`, `pthread_exit` and `pthread_self` are foreign calls. Their results are parameters. That a thread exits once before being joined is a precondition of `Func` and `FinishStep` (no exit value is held for it yet).
- Heap ownership is not modelled: `new`/`delete` of `func_arguments`, the cleanup handler (`pthread_cleanup_push`/`pop`, `shutdown_thread`) and the memory a cancelled thread can leak. The `cancel_func` and `thisObject` fields of `func_arguments` are left out. The first is always NULL and the second always the manager itself.
- ThreadManager.ThreadMgr.CreateThread, ThreadManager.ThreadMgr.Func and ThreadManager.ThreadMgr.CondWait: each is one atomic step, but the source runs parts of them outside the data mutex. `pthread_create` runs before `addID` takes the lock. The user function and `pthread_exit` run outside `addTerminated`'s lock. `condWait` tests for emptiness and removes the top thread in two separate critical sections. The gap between spawning a thread and registering it is not modelled. In that gap a worker can finish and be reaped before `addID` registers it. Its id then stays in the registry for ever and `while (threadsActive())` never ends. The model can reach that end state by calling `CreateThread` after the reap. Bookkeeping.AllReapedLeavesNoneActive assumes the gap away: its precondition is that every worker is registered before any of them finishes.
- ThreadManager.ThreadMgr.Func: models only a user function that returns normally. A thread cancelled while inside it never reaches `addTerminated`, and that path is not modelled.
- ThreadManager.ThreadMgr.ThreadsActive: returns the size as an unbounded integer. The conversion of `size_t` to `int` is not modelled.
- Pointers (`void *`) and thread ids (`pthread_t`) are natural numbers. Nothing interprets them.
- The demo parts of threadDeath3.cc are only replayed as scenario methods. These are `main`, `waitStringThreads`, `TwaitStringThreads`, the example thread functions and all console output.
- Tmycpy's printing loops are not modelled, and neither is its `numElements` parameter, which only they use.
- SimpleTemplate.Tmycpy: `memcmp` over `size` bytes is modelled as a comparison of `size` elements. Both arrays must hold at least `size` elements, since reading past them is undefined. Partly overlapping arrays are not modelled. Passing the same array twice is allowed.
- threadDeath1.cc, threadDeath2.cc, iteration.cc, streambuf.cc, virtuals.cc and overload.cc are not part of this model. They are single-call pthread demos and print-only language demonstrations.
