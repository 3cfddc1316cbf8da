/** The stride scheduler's ready queue (`TaskManager`): a binary max-heap of
    tasks keyed on their `pass` value.

    The heap is modelled by the bag of tasks it holds, written as a sequence
    in insertion order. The order on pass values is a parameter `le`
    (`a <= b` for `Pass`), assumed only to be a total order. `fetch` is
    specified by what `BinaryHeap::pop` promises: it removes and returns a
    greatest element. Which of several equally great elements it picks
    depends on the heap's internal layout; the model picks the earliest
    inserted one, and no property below depends on that choice. */
module Manager {
  import opened Machine
  import opened Tasks

  /** `core::cmp::Ordering`. */
  datatype Ordering = Less | Equal | Greater

  /** `le` is a total order on pass values. */
  ghost predicate TotalOrder(le: (nat, nat) -> bool) {
    && (forall a :: le(a, a))
    && (forall a, b :: le(a, b) && le(b, a) ==> a == b)
    && (forall a, b, c :: le(a, b) && le(b, c) ==> le(a, c))
    && (forall a, b :: le(a, b) || le(b, a))
  }

  /** `Ord::cmp` of `Pass`, derived from its total order. */
  function PassCmp(le: (nat, nat) -> bool, a: nat, b: nat): Ordering {
    if a == b then Equal else if le(a, b) then Less else Greater
  }

  /** `HeapElement::cmp`: compares the two tasks' passes and nothing else. */
  function HeapCmp(le: (nat, nat) -> bool, x: Task, y: Task): Ordering {
    PassCmp(le, x.pass, y.pass)
  }

  /** `HeapElement::eq`: pass equality. */
  predicate HeapEq(x: Task, y: Task) {
    x.pass == y.pass
  }

  /** Equality of heap elements agrees with `cmp` answering `Equal`, and
      `cmp` is antisymmetric: the laws `Ord` demands of `HeapElement`. */
  lemma HeapOrdLaws(le: (nat, nat) -> bool, x: Task, y: Task)
    requires TotalOrder(le)
    ensures HeapEq(x, y) <==> HeapCmp(le, x, y) == Equal
    ensures HeapCmp(le, x, y) == Less <==> HeapCmp(le, y, x) == Greater
    ensures HeapCmp(le, x, y) != Greater <==> le(x.pass, y.pass)
  {
  }

  /** `t` is a greatest element of `q` under `HeapElement::cmp`. */
  ghost predicate IsGreatest(le: (nat, nat) -> bool, q: seq<Task>, t: Task) {
    t in q && forall x :: x in q ==> HeapCmp(le, x, t) != Greater
  }

  /** The ready queue. */
  datatype TaskManager = TaskManager(readyQueue: seq<Task>)

  /** Result of `fetch`: the task popped (if any) and the queue after it. */
  datatype Fetched = Fetched(task: Option<Task>, manager: TaskManager)

  /** `TaskManager::new`. */
  function NewManager(): (m: TaskManager)
    ensures multiset(m.readyQueue) == multiset{}
  {
    TaskManager([])
  }

  /** `TaskManager::add`: pushes the task onto the heap. */
  function Add(m: TaskManager, t: Task): (m': TaskManager)
    ensures multiset(m'.readyQueue) == multiset(m.readyQueue) + multiset{t}
    ensures |m'.readyQueue| == |m.readyQueue| + 1
  {
    TaskManager(m.readyQueue + [t])
  }

  /** Index of the earliest greatest element of a non-empty queue. */
  function MaxIndex(le: (nat, nat) -> bool, q: seq<Task>): (i: nat)
    requires TotalOrder(le)
    requires |q| > 0
    ensures i < |q|
    ensures forall j :: 0 <= j < |q| ==> le(q[j].pass, q[i].pass)
  {
    if |q| == 1 then 0
    else
      var m := MaxIndex(le, q[..|q| - 1]);
      if le(q[|q| - 1].pass, q[m].pass) then m else |q| - 1
  }

  /** Removing the element at `i` leaves exactly the others, as a bag. */
  lemma RemoveAtMultiset(q: seq<Task>, i: nat)
    requires i < |q|
    ensures multiset(q[..i] + q[i + 1..]) + multiset{q[i]} == multiset(q)
  {
    assert q == q[..i] + [q[i]] + q[i + 1..];
  }

  /** `TaskManager::fetch`: pops a greatest task, or `None` on an empty heap. */
  function Fetch(le: (nat, nat) -> bool, m: TaskManager): (r: Fetched)
    requires TotalOrder(le)
    ensures |m.readyQueue| == 0 <==> r.task.None?
    ensures r.task.None? ==> r.manager == m
    ensures r.task.Some? ==>
      && IsGreatest(le, m.readyQueue, r.task.value)
      && multiset(r.manager.readyQueue) + multiset{r.task.value} == multiset(m.readyQueue)
      && |r.manager.readyQueue| == |m.readyQueue| - 1
  {
    var q := m.readyQueue;
    if |q| == 0 then Fetched(None, m)
    else
      var i := MaxIndex(le, q);
      RemoveAtMultiset(q, i);
      Fetched(Some(q[i]), TaskManager(q[..i] + q[i + 1..]))
  }

  /** On an empty heap, a push followed by a pop hands back the pushed task
      and leaves the heap empty again. */
  lemma AddThenFetchEmpty(le: (nat, nat) -> bool, t: Task)
    requires TotalOrder(le)
    ensures Fetch(le, Add(NewManager(), t)) == Fetched(Some(t), NewManager())
  {
    var r := Fetch(le, Add(NewManager(), t));
    assert multiset(r.manager.readyQueue) + multiset{r.task.value} == multiset{t};
    assert |r.manager.readyQueue| == 0;
  }

  /** Two successive pops return tasks in non-increasing pass order: the
      heap drains greatest-first. */
  lemma FetchTwiceOrdered(le: (nat, nat) -> bool, m: TaskManager)
    requires TotalOrder(le)
    requires |m.readyQueue| >= 2
    ensures Fetch(le, m).task.Some?
    ensures Fetch(le, Fetch(le, m).manager).task.Some?
    ensures le(Fetch(le, Fetch(le, m).manager).task.value.pass, Fetch(le, m).task.value.pass)
  {
    var first := Fetch(le, m);
    var second := Fetch(le, first.manager);
    var t := second.task.value;
    assert t in multiset(first.manager.readyQueue);
    assert t in multiset(m.readyQueue);
    assert t in m.readyQueue;
  }

  /** A pop never invents a task: whatever it returns was queued, and every
      queued task other than one copy of it is still queued. */
  lemma FetchKeepsOthers(le: (nat, nat) -> bool, m: TaskManager, x: Task)
    requires TotalOrder(le)
    requires x in m.readyQueue
    requires Fetch(le, m).task != Some(x)
    ensures x in Fetch(le, m).manager.readyQueue
  {
    var r := Fetch(le, m);
    assert x in multiset(m.readyQueue);
    assert x in multiset(r.manager.readyQueue) + multiset{r.task.value};
  }
}
