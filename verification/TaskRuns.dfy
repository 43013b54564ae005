/** Runs of the scheduler's list. A task's back link is set once, when it is appended, and
    never repaired, and the block of a removed task can hold a later one. So the order of
    creations and removals, with the blocks handed out, decides whether the list stays
    linked. */
module TaskRuns {
  import opened TaskLists

  /** task_new, with the block that kzalloc answers, or task_list_remove at a position. */
  datatype TaskOp = Create(block: nat) | Unlink(k: nat)

  /** The tasks listed, by their number of creation. Of every task ever created: the number
      of the one it was appended behind, or -1 for a task of an empty list, and its block. */
  datatype Line = Line(order: seq<nat>, behind: seq<int>, blocks: seq<nat>)

  const NOBODY := Line([], [], [])

  /** A task listed at position from or later has the block. */
  predicate InUse(l: Line, b: nat, from: nat) {
    exists i :: from <= i < |l.order| && l.order[i] < |l.blocks| && l.blocks[l.order[i]] == b
  }

  /** The allocator hands out one of n blocks, and none that a listed task has. */
  predicate Possible(n: nat, l: Line, op: TaskOp) {
    match op
    case Create(b) => b < n && !InUse(l, b, 0)
    case Unlink(k) => k < |l.order|
  }

  function Then(l: Line, op: TaskOp): Line
    requires op.Unlink? ==> op.k < |l.order|
  {
    match op
    case Create(b) =>
      var last: int := if l.order == [] then -1 else l.order[|l.order| - 1];
      Line(l.order + [|l.behind|], l.behind + [last], l.blocks + [b])
    case Unlink(k) => Line(l.order[..k] + l.order[k + 1..], l.behind, l.blocks)
  }

  /** Off the head, the task it was appended behind is still listed. At the head, the task it
      was appended behind, if any, has left no block to a task now listed behind it; and the
      only task left was appended behind none, or else the tail pointer would go on naming
      that one. */
  predicate Clean(l: Line, op: TaskOp)
    requires Grown(l) && (op.Unlink? ==> op.k < |l.order|)
  {
    match op
    case Create(_) => true
    case Unlink(k) =>
      assert Placed(l, k);
      var b := l.behind[l.order[k]];
      if k > 0 then b in l.order else b >= 0 ==> |l.order| > 1 && !InUse(l, l.blocks[b], 1)
  }

  predicate Run(n: nat, l: Line, ops: seq<TaskOp>)
    decreases |ops|
  {
    ops == [] || (Possible(n, l, ops[0]) && Run(n, Then(l, ops[0]), ops[1..]))
  }

  /** Every removal of the run is clean. */
  predicate CleanRun(n: nat, l: Line, ops: seq<TaskOp>)
    requires Run(n, l, ops) && Grown(l)
    decreases |ops|
  {
    ops == [] || (
      ThenGrown(n, l, ops[0]);
      Clean(l, ops[0]) && CleanRun(n, Then(l, ops[0]), ops[1..]))
  }

  /** Tasks are listed in the order of their creation, each was appended behind its
      predecessor in the list or one that was listed between them, and no later task was
      given the block of one still listed. */
  predicate Grown(l: Line) {
    && |l.behind| == |l.blocks| && Increasing(l.order)
    && forall i | 0 <= i < |l.order| :: Placed(l, i) && KeepsBlock(l, i)
  }

  predicate Placed(l: Line, i: int)
    requires 0 <= i < |l.order|
  {
    var task := l.order[i];
    && task < |l.behind| == |l.blocks| && -1 <= l.behind[task] < task
    && (i > 0 ==> l.order[i - 1] <= l.behind[task])
  }

  predicate KeepsBlock(l: Line, i: int)
    requires 0 <= i < |l.order|
  {
    forall u | l.order[i] < u < |l.blocks| :: l.blocks[u] != l.blocks[l.order[i]]
  }

  predicate Increasing(order: seq<nat>) {
    forall i, j | 0 <= i < j < |order| :: order[i] < order[j]
  }

  lemma ThenGrown(n: nat, l: Line, op: TaskOp)
    requires Grown(l) && Possible(n, l, op)
    ensures Grown(Then(l, op))
  {
    match op
    case Create(b) => CreateGrown(l, b);
    case Unlink(k) => UnlinkGrown(l, k);
  }

  lemma CreateGrown(l: Line, b: nat)
    requires Grown(l) && !InUse(l, b, 0)
    ensures Grown(Then(l, Create(b)))
  {
    hide Increasing;
    var l', n := Then(l, Create(b)), |l.order|;
    assert n > 0 ==> Placed(l, n - 1);
    forall i | 0 <= i <= n ensures Placed(l', i) && KeepsBlock(l', i) {
      if i < n {
        assert Placed(l, i) && KeepsBlock(l, i) && l'.order[i] == l.order[i];
        assert i > 0 ==> l'.order[i - 1] == l.order[i - 1];
      }
    }
    forall i | 0 <= i < n ensures l.order[i] < |l.behind| { assert Placed(l, i); }
    IncreasingFurther(l.order, |l.behind|);
  }

  lemma IncreasingFurther(order: seq<nat>, x: nat)
    requires Increasing(order) && forall i | 0 <= i < |order| :: order[i] < x
    ensures Increasing(order + [x])
  {
  }

  lemma UnlinkGrown(l: Line, k: nat)
    requires Grown(l) && k < |l.order|
    ensures Grown(Then(l, Unlink(k)))
  {
    var l' := Then(l, Unlink(k));
    forall i | 0 <= i < |l'.order| ensures Placed(l', i) && KeepsBlock(l', i) {
      var was := if i < k then i else i + 1;
      assert Placed(l, was) && KeepsBlock(l, was) && l'.order[i] == l.order[was];
      if i > 0 { assert l'.order[i - 1] == l.order[if i - 1 < k then i - 1 else i]; }
    }
    forall i, j | 0 <= i < j < |l'.order| ensures l'.order[i] < l'.order[j] {
      assert l'.order[i] == l.order[if i < k then i else i + 1];
      assert l'.order[j] == l.order[if j < k then j else j + 1];
    }
  }

  /** In a grown line the task behind which position k was appended, if it is still listed,
      is the one in front of it. */
  lemma BehindListed(l: Line, k: nat)
    requires Grown(l) && k < |l.order|
    ensures l.order[k] < |l.behind|
    ensures var b := l.behind[l.order[k]]; b in l.order <==> k > 0 && b == l.order[k - 1]
  {
    assert Placed(l, k);
    var b := l.behind[l.order[k]];
    if b in l.order {
      var i :| 0 <= i < |l.order| && l.order[i] == b;
    }
  }

  // ---- removals at the tail only

  predicate TailRun(n: nat, l: Line, ops: seq<TaskOp>)
    decreases |ops|
  {
    ops == [] || (
      && Possible(n, l, ops[0]) && (ops[0].Unlink? ==> ops[0].k == |l.order| - 1)
      && TailRun(n, Then(l, ops[0]), ops[1..]))
  }

  /** Every listed task was appended behind the one in front of it. */
  predicate Unbroken(l: Line) {
    && Grown(l)
    && forall i | 0 <= i < |l.order| :: BehindPrevious(l, i)
  }

  predicate BehindPrevious(l: Line, i: int)
    requires 0 <= i < |l.order|
  {
    l.order[i] < |l.behind| && l.behind[l.order[i]] == if i > 0 then l.order[i - 1] else -1
  }

  lemma ThenUnbroken(n: nat, l: Line, op: TaskOp)
    requires Unbroken(l) && Possible(n, l, op) && (op.Unlink? ==> op.k == |l.order| - 1)
    ensures Clean(l, op) && Unbroken(Then(l, op))
  {
    ThenGrown(n, l, op);
    hide Grown;
    if op.Unlink? { assert BehindPrevious(l, op.k); }
    forall i | 0 <= i < |Then(l, op).order| ensures BehindPrevious(Then(l, op), i) {
      if i < |l.order| { assert BehindPrevious(l, i); }
    }
  }

  /** As long as only the last task is ever removed, every removal is clean, whatever blocks
      are handed out. */
  lemma {:induction false} TailRunsAreClean(n: nat, l: Line, ops: seq<TaskOp>)
    requires Unbroken(l) && TailRun(n, l, ops)
    ensures Run(n, l, ops) && CleanRun(n, l, ops)
    decreases |ops|
  {
    if ops != [] {
      ThenUnbroken(n, l, ops[0]);
      TailRunsAreClean(n, Then(l, ops[0]), ops[1..]);
    }
  }

  // ---- the scheduler's list along a run

  /** The scheduler lists the tasks of the line, in their blocks, with the back links they
      were appended with. */
  ghost predicate Represents(s: Scheduler, pool: seq<Task>, l: Line)
    reads s, pool
  {
    && Grown(l) && DistinctTasks(pool) && |s.tasks| == |l.order|
    && (forall id | 0 <= id < |l.blocks| :: l.blocks[id] < |pool|)
    && forall i | 0 <= i < |l.order| :: StandsFor(pool, l, i, s.tasks[i])
  }

  ghost predicate StandsFor(pool: seq<Task>, l: Line, i: int, task: Task)
    requires 0 <= i < |l.order|
    reads pool
  {
    var id := l.order[i];
    && id < |l.behind| == |l.blocks| && -1 <= l.behind[id] < id
    && HasBlock(pool, l, id, task) && task in pool
    && if l.behind[id] < 0 then task.prev == null
       else task.prev != null && HasBlock(pool, l, l.behind[id], task.prev)
  }

  predicate HasBlock(pool: seq<Task>, l: Line, id: nat, task: Task) {
    id < |l.blocks| && l.blocks[id] < |pool| && task == pool[l.blocks[id]]
  }

  lemma SameBlock(pool: seq<Task>, l: Line, id: nat, task: Task, id': nat, task': Task)
    requires DistinctTasks(pool) && HasBlock(pool, l, id, task) && HasBlock(pool, l, id', task')
    ensures task == task' <==> l.blocks[id] == l.blocks[id']
  {
  }

  /** A removal keeps the list linked exactly when it is clean. */
  lemma CleanIsRemovable(s: Scheduler, pool: seq<Task>, l: Line, k: nat)
    requires Represents(s, pool, l) && k < |l.order|
    ensures s.Removable(k) <==> Clean(l, Unlink(k))
  {
    BehindListed(l, k);
    assert Placed(l, k) && StandsFor(pool, l, k, s.tasks[k]);
    var b := l.behind[l.order[k]];
    if k > 0 {
      assert Placed(l, k - 1) && KeepsBlock(l, k - 1) && StandsFor(pool, l, k - 1, s.tasks[k - 1]);
    } else if b >= 0 {
      BlockBehindHead(s, pool, l, b);
    }
  }

  lemma BlockBehindHead(s: Scheduler, pool: seq<Task>, l: Line, b: nat)
    requires Represents(s, pool, l) && l.order != [] && l.order[0] < |l.behind| && b == l.behind[l.order[0]]
    requires b < |l.blocks|
    ensures InUse(l, l.blocks[b], 1) <==> s.tasks[0].prev in s.tasks[1..]
  {
    hide Grown, HasBlock;
    var head, later := s.tasks[0], s.tasks[1..];
    assert StandsFor(pool, l, 0, head);
    forall i | 1 <= i < |l.order|
      ensures l.order[i] < |l.blocks| && (l.blocks[l.order[i]] == l.blocks[b] <==> later[i - 1] == head.prev)
    {
      assert StandsFor(pool, l, i, s.tasks[i]);
      SameBlock(pool, l, l.order[i], s.tasks[i], b, head.prev);
    }
    if InUse(l, l.blocks[b], 1) {
      var i :| 1 <= i < |l.order| && l.order[i] < |l.blocks| && l.blocks[l.order[i]] == l.blocks[b];
      assert later[i - 1] == head.prev;
    }
    if head.prev in later {
      var j :| 0 <= j < |later| && later[j] == head.prev;
      assert l.blocks[l.order[j + 1]] == l.blocks[b];
    }
  }

  lemma LinksAreInPool(s: Scheduler, pool: seq<Task>, l: Line)
    requires Represents(s, pool, l) && s.ForwardLinked()
    ensures |l.behind| == |l.blocks| && (s.tail == null <==> s.tasks == [])
    ensures s.tail != null ==> s.tail in pool && s.tail == s.tasks[|s.tasks| - 1]
    ensures forall i | 0 <= i < |s.tasks| :: s.tasks[i] in pool && (s.tasks[i].prev == null || s.tasks[i].prev in pool)
  {
    forall i | 0 <= i < |s.tasks| ensures s.tasks[i] in pool && (s.tasks[i].prev == null || s.tasks[i].prev in pool) {
      assert StandsFor(pool, l, i, s.tasks[i]);
    }
  }

  lemma BlockNotListed(s: Scheduler, pool: seq<Task>, l: Line, b: nat)
    requires Represents(s, pool, l) && b < |pool| && !InUse(l, b, 0)
    ensures pool[b] !in s.tasks
  {
    forall i | 0 <= i < |s.tasks| ensures s.tasks[i] != pool[b] { assert StandsFor(pool, l, i, s.tasks[i]); }
  }

  /** kzalloc of the block, and task_new with it. */
  method CreateOne(s: Scheduler, pool: seq<Task>, ghost l: Line, b: nat)
    requires Represents(s, pool, l) && s.ForwardLinked() && s.HasCurrent()
    requires b < |pool| && !InUse(l, b, 0)
    modifies s, pool
    ensures Represents(s, pool, Then(l, Create(b))) && s.ForwardLinked() && s.HasCurrent()
  {
    hide Grown, HasBlock;
    ghost var listed := s.tasks;
    LinksAreInPool(s, pool, l);
    BlockNotListed(s, pool, l, b);
    CreateGrown(l, b);
    var task := pool[b];
    task.next, task.prev := null, null;
    s.New(task);
    hide Then, Scheduler.Forward;
    forall i | 0 <= i < |l.order| ensures StandsFor(pool, l, i, listed[i]) {
      assert listed[i].prev == old(listed[i].prev);
    }
    OneMoreListed(s, pool, listed, l, b);
  }

  lemma OneMoreListed(s: Scheduler, pool: seq<Task>, listed: seq<Task>, l: Line, b: nat)
    requires Grown(Then(l, Create(b))) && DistinctTasks(pool) && b < |pool| && |l.behind| == |l.blocks|
    requires |listed| == |l.order| && s.tasks == listed + [pool[b]]
    requires forall id | 0 <= id < |l.blocks| :: l.blocks[id] < |pool|
    requires forall i | 0 <= i < |l.order| :: StandsFor(pool, l, i, listed[i])
    requires pool[b].prev == if listed == [] then null else listed[|listed| - 1]
    ensures Represents(s, pool, Then(l, Create(b)))
  {
    hide Grown;
    var l', n := Then(l, Create(b)), |l.order|;
    forall i | 0 <= i <= n ensures StandsFor(pool, l', i, s.tasks[i]) {
      if i < n {
        assert StandsFor(pool, l, i, listed[i]) && l'.order[i] == l.order[i];
      } else if n > 0 {
        assert StandsFor(pool, l, n - 1, listed[n - 1]);
      }
    }
  }

  method RemoveOne(s: Scheduler, pool: seq<Task>, l: Line, k: nat)
    requires Represents(s, pool, l) && k < |l.order| && s.ForwardLinked() && s.HasCurrent()
    modifies s, pool
    ensures Represents(s, pool, Then(l, Unlink(k))) && s.HasCurrent()
    ensures s.ForwardLinked() <==> Clean(l, Unlink(k))
  {
    hide Grown, Scheduler.Forward, Scheduler.Removable, Clean, HasBlock;
    ghost var listed := s.tasks;
    LinksAreInPool(s, pool, l);
    UnlinkGrown(l, k);
    CleanIsRemovable(s, pool, l, k);
    BlockOfListed(s, pool, l, k);
    var task := pool[l.blocks[l.order[k]]];
    s.Remove(task, k);
    hide Then;
    forall i | 0 <= i < |l.order| ensures StandsFor(pool, l, i, listed[i]) {
      assert listed[i].prev == old(listed[i].prev);
    }
    OneFewerListed(s, pool, listed, l, k);
  }

  lemma BlockOfListed(s: Scheduler, pool: seq<Task>, l: Line, k: nat)
    requires Represents(s, pool, l) && k < |l.order|
    ensures l.order[k] < |l.blocks| && l.blocks[l.order[k]] < |pool| && s.tasks[k] == pool[l.blocks[l.order[k]]]
  {
    assert StandsFor(pool, l, k, s.tasks[k]);
  }

  lemma OneFewerListed(s: Scheduler, pool: seq<Task>, listed: seq<Task>, l: Line, k: nat)
    requires k < |l.order| && Grown(Then(l, Unlink(k))) && DistinctTasks(pool)
    requires |listed| == |l.order| && s.tasks == listed[..k] + listed[k + 1..]
    requires forall id | 0 <= id < |l.blocks| :: l.blocks[id] < |pool|
    requires forall i | 0 <= i < |l.order| :: StandsFor(pool, l, i, listed[i])
    ensures Represents(s, pool, Then(l, Unlink(k)))
  {
    hide Grown;
    var l' := Then(l, Unlink(k));
    forall i | 0 <= i < |l'.order| ensures StandsFor(pool, l', i, s.tasks[i]) {
      var was := if i < k then i else i + 1;
      assert StandsFor(pool, l, was, listed[was]) && l'.order[i] == l.order[was] && s.tasks[i] == listed[was];
    }
  }

  /** A run, up to the first removal that breaks the list. It stays forward linked if and
      only if every removal is clean. */
  method Perform(s: Scheduler, pool: seq<Task>, l: Line, ops: seq<TaskOp>) returns (linked: bool)
    requires Represents(s, pool, l) && s.ForwardLinked() && s.HasCurrent() && Run(|pool|, l, ops)
    modifies s, pool
    ensures linked <==> CleanRun(|pool|, l, ops)
    ensures linked <==> s.ForwardLinked()
    decreases |ops|
  {
    hide Grown, Scheduler.Forward;
    if ops == [] {
      return true;
    }
    ThenGrown(|pool|, l, ops[0]);
    match ops[0] {
      case Create(b) =>
        CreateOne(s, pool, l, b);
        linked := Perform(s, pool, Then(l, Create(b)), ops[1..]);
      case Unlink(k) =>
        RemoveOne(s, pool, l, k);
        if !Clean(l, ops[0]) {
          return false;
        }
        linked := Perform(s, pool, Then(l, Unlink(k)), ops[1..]);
    }
  }

  /** From the empty list every run is covered. */
  method PerformAll(pool: seq<Task>, ops: seq<TaskOp>) returns (s: Scheduler, linked: bool)
    requires DistinctTasks(pool) && Run(|pool|, NOBODY, ops)
    modifies pool
    ensures Grown(NOBODY) && (linked <==> CleanRun(|pool|, NOBODY, ops))
    ensures linked <==> s.ForwardLinked()
  {
    s := new Scheduler();
    linked := Perform(s, pool, NOBODY, ops);
  }

  // ---- two ways to break the list

  method ThreeTasks() returns (s: Scheduler, first: Task, second: Task, third: Task)
    ensures fresh(s) && fresh(first) && fresh(second) && fresh(third)
    ensures s.tasks == [first, second, third] && s.ForwardLinked() && s.HasCurrent()
    ensures first.prev == null && second.prev == first && third.prev == second
  {
    s := new Scheduler();
    first := new Task();
    second := new Task();
    third := new Task();
    hide Scheduler.Forward, Scheduler.Backward;
    s.New(first);
    LinksOf(s);
    s.New(second);
    LinksOf(s);
    assert s.tasks == [first, second];
    s.New(third);
  }

  lemma LinksOf(s: Scheduler)
    requires s.ForwardLinked() && s.tasks != []
    ensures DistinctTasks(s.tasks) && s.head == s.tasks[0] && s.tail == s.tasks[|s.tasks| - 1]
    ensures forall i | 0 <= i < |s.tasks| - 1 :: s.tasks[i].next == s.tasks[i + 1]
  {
  }

  /** Of three tasks the second is removed, and then the third, whose back link still names
      the second: from the head one still comes to it. */
  method StaleLink() returns (s: Scheduler, third: Task)
    ensures !s.ForwardLinked() && |s.tasks| == 1 && third !in s.tasks && s.tasks[0].next == third
  {
    hide Scheduler.Forward;
    var first, second;
    s, first, second, third := ThreeTasks();
    LinksOf(s);
    assert s.tasks[0] == first && s.tasks[1] == second && s.tasks[2] == third;
    s.Remove(second, 1);
    assert s.tasks == [first, third];
    LinksOf(s);
    s.Remove(third, 1);
    assert s.tasks == [first];
  }

  method HeadRemoved() returns (s: Scheduler, first: Task, second: Task, third: Task)
    ensures fresh(s) && fresh(first) && fresh(second) && fresh(third) && first !in s.tasks
    ensures s.tasks == [second, third] && s.ForwardLinked() && s.HasCurrent() && second.prev == first
  {
    hide Scheduler.Forward, Scheduler.Backward;
    s, first, second, third := ThreeTasks();
    LinksOf(s);
    assert s.tasks[0] == first && s.tasks[1] == second && s.tasks[2] == third;
    s.Remove(first, 0);
    assert s.tasks == [second, third];
  }

  /** Of three tasks the head is removed and its block given to a fourth. */
  method HeadReused() returns (s: Scheduler, second: Task, third: Task, fourth: Task)
    ensures fresh(s) && fresh(second) && fresh(third) && fresh(fourth)
    ensures s.tasks == [second, third, fourth] && s.ForwardLinked() && s.HasCurrent() && second.prev == fourth
  {
    s, fourth, second, third := HeadRemoved();
    LinksOf(s);
    fourth.next, fourth.prev := null, null;
    hide Scheduler.Forward, Scheduler.Backward;
    s.New(fourth);
  }

  /** A fifth task is appended behind the fourth, and the head removed. That writes through
      its stale back link into the fourth: from the head the list goes round the third and
      the fourth, past the fifth. */
  method ReusedBlock() returns (s: Scheduler, third: Task, fourth: Task, fifth: Task)
    ensures s.tasks == [third, fourth, fifth] && !s.ForwardLinked()
    ensures s.head == third && third.next == fourth && fourth.next == third
  {
    hide Scheduler.Forward;
    var second;
    s, second, third, fourth := HeadReused();
    LinksOf(s);
    assert s.tasks[0] == second && s.tasks[1] == third && s.tasks[2] == fourth;
    fifth := new Task();
    s.New(fifth);
    assert s.tasks == [second, third, fourth, fifth] && second.prev == fourth;
    LinksOf(s);
    RemoveReused(s, second, third, fourth, fifth);
  }

  method RemoveReused(s: Scheduler, second: Task, third: Task, fourth: Task, fifth: Task)
    requires s.tasks == [second, third, fourth, fifth] && s.ForwardLinked() && s.HasCurrent() && second.prev == fourth
    modifies s, fourth
    ensures s.tasks == [third, fourth, fifth] && !s.ForwardLinked()
    ensures s.head == third && third.next == fourth && fourth.next == third
  {
    hide Scheduler.Forward;
    LinksOf(s);
    assert s.tasks[0] == second && s.tasks[1] == third && s.tasks[2] == fourth;
    assert s.tasks[1..] == [third, fourth, fifth];
    s.Remove(second, 0);
  }
}
