/** The bookkeeping of the ThreadMgr class (src/threadDeath/threadDeath3.cc) as values.

    ThreadMgr keeps, under its data mutex, a registry of thread ids with the
    argument record built for each, and a stack of the ids of threads whose
    user function has returned but which have not been joined yet.  Each
    operation's bookkeeping is taken as one atomic step (see README, Left
    out): one function from the old state to the new one.

    The thread library itself keeps, for each exited thread, the value it
    passed to pthread_exit until somebody joins it.  That value is what
    condWait hands back, so the state carries it too (`exits`). */
module Bookkeeping {

  /** A pthread_t. */
  type ThreadId = nat

  /** An untyped pointer (void *). */
  type Ptr = nat

  datatype Option<T> = None | Some(value: T)

  /** The func_arguments record createThread builds for each thread: the
      user function and the user's argument. */
  datatype FuncArguments = FuncArguments(func: Ptr, arg: Ptr)

  predicate Distinct(xs: seq<ThreadId>) {
    forall i, j :: 0 <= i < j < |xs| ==> xs[i] != xs[j]
  }

  function Elements(xs: seq<ThreadId>): set<ThreadId> {
    set t | t in xs
  }

  lemma ElementsCons(xs: seq<ThreadId>)
    requires xs != []
    ensures Elements(xs) == {xs[0]} + Elements(xs[1..])
  {
    assert xs == [xs[0]] + xs[1..];
  }

  /** The state of one manager. */
  datatype Book = Book(
    ids: map<ThreadId, FuncArguments>,  // m_ids: every registered thread
    terminated: seq<ThreadId>,          // m_terminated: the top of the stack is the LAST element
    exits: map<ThreadId, Ptr>)          // exit value of each exited, not yet joined thread
  {
    /** A thread exits once before it is joined, so it is on the stack at
        most once, and the library holds the exit value of every thread on
        the stack. */
    ghost predicate Valid() {
      && Distinct(terminated)
      && (forall t :: t in terminated ==> t in exits)
    }

    /** m_terminated.top() */
    function Top(): ThreadId
      requires terminated != []
    {
      terminated[|terminated| - 1]
    }
  }

  /** A freshly constructed manager. */
  const Empty := Book(map[], [], map[])

  /** What removeTerminated leaves behind, returns, and stores through its
      return_val parameter (None: return_val is not written). */
  datatype Removal = Removal(book: Book, ret: int, value: Option<Ptr>)

  /** addID: std::map::insert, which registers `id` unless it is already
      registered, in which case the existing entry stays. */
  function AddIdStep(s: Book, id: ThreadId, args: FuncArguments): (r: Book)
    ensures r.terminated == s.terminated && r.exits == s.exits
    ensures r.ids.Keys == s.ids.Keys + {id}
    ensures id in s.ids ==> r.ids[id] == s.ids[id]
    ensures id !in s.ids ==> r.ids[id] == args && |r.ids| == |s.ids| + 1
    ensures forall t :: t in s.ids ==> r.ids[t] == s.ids[t]
  {
    if id in s.ids then s else s.(ids := s.ids[id := args])
  }

  /** createThread, given what pthread_create reported (`createStatus`) and
      the id it wrote (`newId`): registers the thread and returns its id on
      success, returns 0 and changes nothing on failure. */
  function CreateStep(s: Book, func: Ptr, arg: Ptr, createStatus: int, newId: ThreadId): (r: (Book, ThreadId))
    ensures createStatus == 0 ==> r.1 == newId && newId in r.0.ids && r.0 == AddIdStep(s, newId, FuncArguments(func, arg))
    ensures createStatus != 0 ==> r.1 == 0 && r.0 == s
    ensures r.0.terminated == s.terminated && r.0.exits == s.exits
  {
    if createStatus == 0 then (AddIdStep(s, newId, FuncArguments(func, arg)), newId) else (s, 0)
  }

  /** cancel_thread: erases `tid` from the registry (nothing if absent) and
      never touches the stack. */
  function CancelStep(s: Book, tid: ThreadId): (r: Book)
    ensures tid !in r.ids && r.ids.Keys == s.ids.Keys - {tid}
    ensures forall t :: t in r.ids ==> r.ids[t] == s.ids[t]
    ensures |r.ids| == if tid in s.ids then |s.ids| - 1 else |s.ids|
    ensures r.terminated == s.terminated && r.exits == s.exits
  {
    s.(ids := s.ids - {tid})
  }

  /** The tail of the trampoline func once the user function has returned
      `value`: addTerminated pushes the worker's own id, then the worker
      exits with `value`, which the library keeps until the join. */
  function FinishStep(s: Book, self: ThreadId, value: Ptr): (r: Book)
    requires s.Valid() && self !in s.exits
    ensures r.Valid()
    ensures r.ids == s.ids
    ensures |r.terminated| == |s.terminated| + 1
    ensures r.Top() == self && r.terminated[..|s.terminated|] == s.terminated
    ensures self in r.exits && r.exits[self] == value
    ensures forall t :: t in s.exits ==> t in r.exits && r.exits[t] == s.exits[t]
  {
    Book(s.ids, s.terminated + [self], s.exits[self := value])
  }

  /** A finishing worker adds an exit value for itself and for no one else. */
  lemma FinishStepExitKeys(s: Book, self: ThreadId, value: Ptr)
    requires s.Valid() && self !in s.exits
    ensures FinishStep(s, self, value).exits.Keys == s.exits.Keys + {self}
  {
  }

  /** removeTerminated, given what pthread_join reports (`joinStatus`).  On
      an empty stack: returns 0, changes nothing.  A failed join: returns its
      status and keeps the id on top of the stack and in the registry.  A
      successful join: pops exactly the top id, erases it from the registry,
      returns 0 and yields the value that thread exited with. */
  function RemoveStep(s: Book, joinStatus: int): (r: Removal)
    requires s.Valid()
    ensures r.book.Valid()
    ensures s.terminated == [] ==> r == Removal(s, 0, None)
    ensures s.terminated != [] && joinStatus != 0 ==> r == Removal(s, joinStatus, None)
    ensures s.terminated != [] && joinStatus == 0 ==>
      && r.ret == 0
      && r.value == Some(s.exits[s.Top()])
      && r.book.terminated == s.terminated[..|s.terminated| - 1]
      && r.book.ids == s.ids - {s.Top()}
      && |r.book.ids| == (if s.Top() in s.ids then |s.ids| - 1 else |s.ids|)
      && s.Top() !in r.book.exits
      && r.book == Popped(s)
  {
    if s.terminated == [] then Removal(s, 0, None)
    else if joinStatus != 0 then Removal(s, joinStatus, None)
    else Removal(Popped(s), 0, Some(s.exits[s.Top()]))
  }

  /** The state after a successful join of the top thread: popped from the
      stack, erased from the registry, released by the library. */
  function Popped(s: Book): (r: Book)
    requires s.Valid() && s.terminated != []
    ensures r.Valid()
    ensures r.terminated == s.terminated[..|s.terminated| - 1]
    ensures r.ids == s.ids - {s.Top()} && r.exits == s.exits - {s.Top()}
  {
    var top := s.Top();
    var rest := s.terminated[..|s.terminated| - 1];
    assert s.terminated == rest + [top];
    assert top !in rest by {
      forall i | 0 <= i < |rest| ensures rest[i] != top {
        assert s.terminated[i] != s.terminated[|s.terminated| - 1];
      }
    }
    Book(s.ids - {top}, rest, s.exits - {top})
  }

  /** A worker's finish followed by a successful join undoes the push: the
      stack and the library are back where they were, the worker is gone from
      the registry, and the join yields exactly what the worker returned. */
  lemma FinishThenReap(s: Book, self: ThreadId, value: Ptr)
    requires s.Valid() && self !in s.exits
    ensures RemoveStep(FinishStep(s, self, value), 0) == Removal(CancelStep(s, self), 0, Some(value))
  {
    var f := FinishStep(s, self, value);
    var r := RemoveStep(f, 0);
    assert r.book.terminated == s.terminated;
    assert r.book.exits == s.exits;
  }

  /** A failed join keeps the thread on top, so the next successful join
      reaps that same thread: retrying is as if the failure had not happened. */
  lemma RetryAfterFailedJoin(s: Book, joinStatus: int)
    requires s.Valid() && joinStatus != 0
    ensures RemoveStep(RemoveStep(s, joinStatus).book, 0) == RemoveStep(s, 0)
  {
  }

  /** Workers xs[0], xs[1], ... finish one after the other, xs[i] returning vs[i]. */
  function FinishAll(s: Book, xs: seq<ThreadId>, vs: seq<Ptr>): (r: Book)
    requires s.Valid() && |xs| == |vs| && Distinct(xs)
    requires forall i :: 0 <= i < |xs| ==> xs[i] !in s.exits
    ensures r.Valid() && r.ids == s.ids
    ensures r.terminated == s.terminated + xs
    ensures forall t :: t in s.exits ==> t in r.exits && r.exits[t] == s.exits[t]
    ensures forall i :: 0 <= i < |xs| ==> xs[i] in r.exits && r.exits[xs[i]] == vs[i]
    decreases |xs|
  {
    if xs == [] then s
    else
      var s' := FinishStep(s, xs[0], vs[0]);
      assert forall i :: 1 <= i < |xs| ==> xs[i] != xs[0];
      assert s'.terminated + xs[1..] == s.terminated + xs;
      var r := FinishAll(s', xs[1..], vs[1..]);
      assert forall i :: 1 <= i < |xs| ==> xs[i] == xs[1..][i - 1] && vs[i] == vs[1..][i - 1];
      r
  }

  /** The workers xs finishing add exit values for exactly xs and nothing else. */
  lemma {:induction false} FinishAllExitKeys(s: Book, xs: seq<ThreadId>, vs: seq<Ptr>)
    requires s.Valid() && |xs| == |vs| && Distinct(xs)
    requires forall i :: 0 <= i < |xs| ==> xs[i] !in s.exits
    ensures FinishAll(s, xs, vs).exits.Keys == s.exits.Keys + Elements(xs)
    decreases |xs|
  {
    if xs != [] {
      var s' := FinishStep(s, xs[0], vs[0]);
      assert forall i :: 1 <= i < |xs| ==> xs[i] != xs[0] && xs[i] == xs[1..][i - 1];
      FinishStepExitKeys(s, xs[0], vs[0]);
      FinishAllExitKeys(s', xs[1..], vs[1..]);
      ElementsCons(xs);
    }
  }

  /** What n successive successful joins leave behind: the state, the ids
      reaped in reaping order, and the values the joins yielded. */
  datatype Drain = Drain(book: Book, order: seq<ThreadId>, values: seq<Ptr>)

  /** n successive calls of removeTerminated whose joins all succeed: each
      one is RemoveStep(_, 0), which leaves Popped behind. */
  function ReapAll(s: Book, n: nat): (r: Drain)
    requires s.Valid() && n <= |s.terminated|
    ensures r.book.Valid() && |r.order| == n && |r.values| == n
    decreases n
  {
    if n == 0 then Drain(s, [], [])
    else
      var rest := ReapAll(Popped(s), n - 1);
      Drain(rest.book, [s.Top()] + rest.order, [s.exits[s.Top()]] + rest.values)
  }

  /** ReapAll is repeated removeTerminated: its first join is RemoveStep(s, 0),
      which yields the first value, and the rest start where that one ends. */
  lemma ReapAllFirstStep(s: Book, n: nat)
    requires s.Valid() && 0 < n <= |s.terminated|
    ensures var step := RemoveStep(s, 0);
      && step.ret == 0 && step.book.Valid() && n - 1 <= |step.book.terminated|
      && step.value == Some(ReapAll(s, n).values[0])
      && ReapAll(s, n).order == [s.Top()] + ReapAll(step.book, n - 1).order
      && ReapAll(s, n).values == [ReapAll(s, n).values[0]] + ReapAll(step.book, n - 1).values
      && ReapAll(s, n).book == ReapAll(step.book, n - 1).book
  {
  }

  /** The j-th successful join reaps the j-th id from the top of the stack. */
  lemma {:induction false} ReapAllOrderAt(s: Book, n: nat, j: nat)
    requires s.Valid() && j < n <= |s.terminated|
    ensures ReapAll(s, n).order[j] == s.terminated[|s.terminated| - 1 - j]
    decreases j
  {
    if j > 0 {
      ReapAllOrderAt(Popped(s), n - 1, j - 1);
    }
  }

  /** Each successful join yields the exit value of the thread it reaps. */
  lemma {:induction false} ReapAllValueAt(s: Book, n: nat, j: nat)
    requires s.Valid() && j < n <= |s.terminated|
    ensures var r := ReapAll(s, n); r.order[j] in s.exits && r.values[j] == s.exits[r.order[j]]
    decreases j
  {
    if j > 0 {
      var below := Popped(s);
      ReapAllValueAt(below, n - 1, j - 1);
      ReapAllOrderAt(below, n - 1, j - 1);
    }
  }

  /** n successful joins leave the stack below the n topmost ids as it was. */
  lemma {:induction false} ReapAllLeavesBelow(s: Book, n: nat)
    requires s.Valid() && n <= |s.terminated|
    ensures ReapAll(s, n).book.terminated == s.terminated[..|s.terminated| - n]
    decreases n
  {
    if n > 0 {
      ReapAllLeavesBelow(Popped(s), n - 1);
    }
  }

  /** The reaped threads, and only they, leave the registry. */
  lemma {:induction false} ReapAllRegistry(s: Book, n: nat)
    requires s.Valid() && n <= |s.terminated|
    ensures ReapAll(s, n).book.ids == s.ids - Elements(ReapAll(s, n).order)
    decreases n
  {
    var r := ReapAll(s, n);
    if n == 0 {
      assert Elements(r.order) == {};
    } else {
      var below := Popped(s);
      ReapAllRegistry(below, n - 1);
      assert Elements(r.order) == {s.Top()} + Elements(ReapAll(below, n - 1).order);
    }
  }

  /** A sequence and its reverse hold the same elements. */
  lemma ReversedElements(xs: seq<ThreadId>, ys: seq<ThreadId>)
    requires |ys| == |xs| && forall j :: 0 <= j < |xs| ==> ys[j] == xs[|xs| - 1 - j]
    ensures Elements(ys) == Elements(xs)
  {
    forall t | t in Elements(xs) ensures t in Elements(ys) {
      var i :| 0 <= i < |xs| && xs[i] == t;
      assert ys[|xs| - 1 - i] == t;
    }
  }

  /** The j-th of the joins that follow the workers xs finishing is the
      j-th of them counted from the last to finish. */
  lemma LifoDrainAt(s: Book, xs: seq<ThreadId>, vs: seq<Ptr>, j: nat)
    requires s.Valid() && |xs| == |vs| && Distinct(xs)
    requires forall i :: 0 <= i < |xs| ==> xs[i] !in s.exits
    requires j < |xs|
    ensures var d := ReapAll(FinishAll(s, xs, vs), |xs|);
      d.order[j] == xs[|xs| - 1 - j] && d.values[j] == vs[|xs| - 1 - j]
  {
    var f := FinishAll(s, xs, vs);
    ReapAllOrderAt(f, |xs|, j);
    ReapAllValueAt(f, |xs|, j);
    assert f.terminated[|f.terminated| - 1 - j] == xs[|xs| - 1 - j];
  }

  /** LIFO drain: when workers xs finish in that order (returning vs), the
      next |xs| successful joins reap them in the reverse order, each
      yielding its own worker's value; the stack is back where it was and
      exactly those workers have left the registry. */
  lemma LifoDrain(s: Book, xs: seq<ThreadId>, vs: seq<Ptr>)
    requires s.Valid() && |xs| == |vs| && Distinct(xs)
    requires forall i :: 0 <= i < |xs| ==> xs[i] !in s.exits
    ensures var d := ReapAll(FinishAll(s, xs, vs), |xs|);
      && d.book.terminated == s.terminated
      && (forall j :: 0 <= j < |xs| ==> d.order[j] == xs[|xs| - 1 - j] && d.values[j] == vs[|xs| - 1 - j])
      && d.book.ids == s.ids - Elements(xs)
  {
    var f := FinishAll(s, xs, vs);
    var d := ReapAll(f, |xs|);
    ReapAllLeavesBelow(f, |xs|);
    assert f.terminated[..|f.terminated| - |xs|] == s.terminated;
    forall j | 0 <= j < |xs|
      ensures d.order[j] == xs[|xs| - 1 - j] && d.values[j] == vs[|xs| - 1 - j]
    {
      LifoDrainAt(s, xs, vs, j);
    }
    ReapAllRegistry(f, |xs|);
    ReversedElements(xs, d.order);
  }

  /** When the registry holds exactly the workers xs, none of which has
      exited yet, and they all finish: draining them all empties both the
      stack and the registry, so a controller loop
      `while (threadsActive()) condWait(...)` ends after |xs| rounds. */
  lemma AllReapedLeavesNoneActive(s: Book, xs: seq<ThreadId>, vs: seq<Ptr>)
    requires s.Valid() && s.terminated == [] && s.exits == map[] && s.ids.Keys == Elements(xs)
    requires |xs| == |vs| && Distinct(xs)
    ensures var d := ReapAll(FinishAll(s, xs, vs), |xs|);
      d.book.terminated == [] && |d.book.ids| == 0
  {
    LifoDrain(s, xs, vs);
    var d := ReapAll(FinishAll(s, xs, vs), |xs|);
    assert d.book.ids.Keys == {};
  }
}
