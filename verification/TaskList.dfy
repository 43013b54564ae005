/** The scheduler's task list: appended at the tail, unlinked by its neighbours'
    pointers, and walked round robin. */
module TaskLists {
  import opened Division

  class Task {
    var next: Task?
    var prev: Task?

    constructor ()
      ensures next == null && prev == null
    {
      next, prev := null, null;
    }
  }

  predicate DistinctTasks(tasks: seq<Task>) {
    forall i, j | 0 <= i < j < |tasks| :: tasks[i] != tasks[j]
  }

  class Scheduler {
    var head: Task?
    var tail: Task?
    var current: Task?
    ghost var tasks: seq<Task>   // in list order

    /** Following next from the head visits the tasks in order and then stops. */
    ghost predicate Forward(order: seq<Task>)
      reads this`head, this`tail, order
    {
      && DistinctTasks(order)
      && (if order == [] then head == null && tail == null else head == order[0] && tail == order[|order| - 1])
      && forall i {:trigger order[i].next} | 0 <= i < |order| ::
           order[i].next == if i + 1 < |order| then order[i + 1] else null
    }

    ghost predicate ForwardLinked()
      reads this, tasks
    {
      Forward(tasks)
    }

    ghost predicate Backward(order: seq<Task>)
      reads order
    {
      forall i {:trigger order[i].prev} | 0 <= i < |order| :: order[i].prev == if i > 0 then order[i - 1] else null
    }

    ghost predicate BackLinked()
      reads this, tasks
    {
      Backward(tasks)
    }

    ghost predicate HasCurrent()
      reads this
    {
      if tasks == [] then current == null else current in tasks
    }

    ghost predicate Valid()
      reads this, tasks
    {
      ForwardLinked() && BackLinked() && HasCurrent()
    }

    /** Unlinking the task at position k through its back link gives the list without it. At
        the head a back link to a task no longer listed is written through without touching
        the list, unless the list becomes empty; in the kernel its block has been freed, and
        the write reaches whatever is in it now. */
    ghost predicate Removable(k: nat)
      requires k < |tasks|
      reads this, tasks
    {
      if k > 0 then tasks[k].prev == tasks[k - 1]
      else tasks[0].prev !in tasks[1..] && (|tasks| > 1 || tasks[0].prev == null)
    }

    lemma WellLinkedIsRemovable(k: nat)
      requires Valid() && k < |tasks|
      ensures Removable(k)
    {
      assert tasks[k].prev == if k > 0 then tasks[k - 1] else null;
    }

    constructor ()
      ensures Valid() && tasks == [] && tail == null
    {
      head, tail, current, tasks := null, null, null, [];
    }

    ghost predicate CurrentAt(k: int)
      reads this`tasks, this`current
    {
      0 <= k < |tasks| && tasks[k] == current
    }

    /** The task at position j, counting around the list. */
    ghost function TaskAround(j: nat): Task
      requires tasks != []
      reads this`tasks
    {
      tasks[j % |tasks|]
    }

    /** task_get_next: in a linked list the next task around it. */
    method GetNext() returns (task: Task?)
      requires current != null
      ensures forall k | ForwardLinked() && CurrentAt(k) :: task == TaskAround(k + 1)
      ensures task == Successor(current)
    {
      forall k | ForwardLinked() && CurrentAt(k) ensures Successor(current) == TaskAround(k + 1) {
        assert tasks[k].next == if k + 1 < |tasks| then tasks[k + 1] else null;
        Rotate(k, 0, |tasks|);
      }
      if current.next == null {
        return head;
      }
      task := current.next;
    }

    function Successor(task: Task): Task?
      reads this, task
    {
      if task.next == null then head else task.next
    }

    /** task_new, with the zeroed block that its kzalloc answers: the new task becomes the
        tail, and the current task of an empty list. The block may have held a task before. */
    method New(task: Task)
      requires ForwardLinked() && HasCurrent()
      requires task !in tasks && task.next == null && task.prev == null
      modifies this, task, if tail != null then {tail} else {}
      ensures ForwardLinked() && HasCurrent()
      ensures BackLinked() <==> old(BackLinked())
      ensures tasks == old(tasks) + [task]
      ensures current == if old(tasks) == [] then task else old(current)
      ensures task.prev == old(tail) && forall t | t in old(tasks) :: t.prev == old(t.prev)
    {
      if head == null {
        head, tail, current, tasks := task, task, task, tasks + [task];
        return;
      }
      tail.next := task;
      task.prev := tail;
      tail := task;
      hide Forward, Backward;
      SameBackLinks(tasks);
      WithOneMore(task);
      tasks := tasks + [task];
    }

    twostate lemma SameBackLinks(order: seq<Task>)
      requires forall t | t in order :: old(allocated(t)) && t.prev == old(t.prev)
      ensures Backward(order) <==> old(Backward(order))
    {
      if Backward(order) {
        forall i | 0 <= i < |order| ensures old(order[i].prev) == if i > 0 then order[i - 1] else null {
          assert order[i].prev == old(order[i].prev);
        }
      }
    }

    lemma WithOneMore(task: Task)
      requires DistinctTasks(tasks) && tasks != [] && task !in tasks && head == tasks[0] && tail == task
      requires forall i {:trigger tasks[i].next} | 0 <= i < |tasks| ::
                 tasks[i].next == if i + 1 < |tasks| then tasks[i + 1] else task
      requires task.next == null && task.prev == tasks[|tasks| - 1]
      ensures Forward(tasks + [task]) && (Backward(tasks + [task]) <==> Backward(tasks))
    {
      var more := tasks + [task];
      assert more[|tasks|] == task;
      forall i | 0 <= i < |more| ensures more[i].next == if i + 1 < |more| then more[i + 1] else null {
        if i < |tasks| { assert more[i] == tasks[i]; }
      }
      if Backward(more) {
        forall i | 0 <= i < |tasks| ensures tasks[i].prev == if i > 0 then tasks[i - 1] else null {
          assert more[i] == tasks[i];
        }
      }
    }

    /** The links from head to tail leave out the task at position k. */
    ghost predicate LinkedWithout(k: nat)
      requires k < |tasks|
      reads this`head, this`tail, this`tasks, tasks
    {
      && (if |tasks| == 1 then head == null && tail == null
          else head == tasks[if k == 0 then 1 else 0]
               && tail == tasks[if k == |tasks| - 1 then k - 1 else |tasks| - 1])
      && forall i {:trigger tasks[i].next} | 0 <= i < |tasks| && i != k :: tasks[i].next == After(k, i)
    }

    /** The task behind the one at i when the one at k is passed over. */
    ghost function After(k: nat, i: nat): Task?
      reads this`tasks
    {
      var j := if i + 1 == k then i + 2 else i + 1;
      if j < |tasks| then tasks[j] else null
    }

    /** The links that task_list_remove changes. */
    method Unlink(task: Task, ghost k: nat)
      requires ForwardLinked() && k < |tasks| && task == tasks[k]
      modifies this`head, this`tail, if task.prev != null then {task.prev} else {}
      ensures LinkedWithout(k) <==> old(Removable(k))
      ensures task.prev != null ==> task.prev.next == task.next
      ensures task.next == old(task.next) && head == if k > 0 then old(head) else task.next
      ensures forall t: Task | old(allocated(t)) :: t.prev == old(t.prev)
    {
      assert task.next == if k + 1 < |tasks| then tasks[k + 1] else null;
      assert k > 0 ==> tasks[k - 1].next == tasks[k - 1 + 1];
      ghost var j: nat := if k > 0 then k - 1
                          else if j :| 0 < j < |tasks| && tasks[j] == task.prev then j else 0;
      if task.prev != null {
        task.prev.next := task.next;
      }
      if task == head {
        head := task.next;
      }
      if task == tail {
        tail := task.prev;
      }
      assert !old(Removable(k)) && j != k ==> tasks[j].next != After(k, j);
    }

    lemma FirstAndNext(k: nat)
      requires ForwardLinked() && k < |tasks|
      ensures DistinctTasks(tasks) && head == tasks[0]
      ensures tasks[k].next == if k + 1 < |tasks| then tasks[k + 1] else null
    {
    }

    lemma WithoutOne(k: nat)
      requires DistinctTasks(tasks) && k < |tasks|
      ensures Forward(tasks[..k] + tasks[k + 1..]) <==> LinkedWithout(k)
      ensures Backward(tasks) ==> (Backward(tasks[..k] + tasks[k + 1..]) <==> k == |tasks| - 1)
    {
      var fewer := tasks[..k] + tasks[k + 1..];
      if LinkedWithout(k) {
        forall i | 0 <= i < |fewer| ensures fewer[i].next == if i + 1 < |fewer| then fewer[i + 1] else null {
          assert fewer[i] == tasks[if i < k then i else i + 1];
        }
      }
      if Forward(fewer) {
        forall i | 0 <= i < |tasks| && i != k ensures tasks[i].next == After(k, i) {
          assert tasks[i] == fewer[if i < k then i else i - 1];
        }
      }
      if k < |tasks| - 1 {
        assert fewer[k] == tasks[k + 1] && tasks[k + 1].prev == fewer[k].prev;
      }
    }

    /** task_list_remove of the task at position k. The list without it is forward linked
        exactly when the task was removable; of a list that was linked both ways the back
        links survive exactly when the task was the last. */
    method Remove(task: Task, ghost k: nat)
      requires ForwardLinked() && HasCurrent() && k < |tasks| && task == tasks[k]
      modifies this, if task.prev != null then {task.prev} else {}
      ensures tasks == old(tasks)[..k] + old(tasks)[k + 1..]
      ensures HasCurrent()
      ensures ForwardLinked() <==> old(Removable(k))
      ensures head == if k > 0 then old(head) else task.next
      ensures task.next == old(task.next) && (task.prev != null ==> task.prev.next == task.next)
      ensures old(BackLinked()) ==> (BackLinked() <==> k == |old(tasks)| - 1)
      ensures current == if old(current) != task then old(current)
                         else if tasks == [] then null else tasks[if k < |tasks| then k else 0]
      ensures forall t: Task | old(allocated(t)) :: t.prev == old(t.prev)
    {
      hide Removable, Forward, LinkedWithout;
      FirstAndNext(k);
      Unlink(task, k);
      if task == current {
        current := GetNext();
      }
      WithoutOne(k);
      tasks := tasks[..k] + tasks[k + 1..];
    }

    // ---- round robin

    /** The tasks reached by n steps of task_get_next from a task. */
    ghost function Visited(task: Task, n: nat): seq<Task?>
      reads this, tasks, task
      requires ForwardLinked() && task in tasks
      decreases n
    {
      if n == 0 then []
      else
        SuccessorListed(task);
        [Successor(task)] + Visited(Successor(task), n - 1)
    }

    lemma SuccessorListed(task: Task)
      requires ForwardLinked() && task in tasks
      ensures Successor(task) != null && Successor(task) in tasks
    {
      var k :| 0 <= k < |tasks| && tasks[k] == task;
      assert tasks[k].next == if k + 1 < |tasks| then tasks[k + 1] else null;
    }

    /** Step j of a walk from position k is position k + j around the list. */
    lemma {:induction false} VisitedAt(k: nat, n: nat, j: nat)
      requires ForwardLinked() && k < |tasks| && j < n
      ensures |Visited(tasks[k], n)| == n
      ensures Visited(tasks[k], n)[j] == tasks[(k + 1 + j) % |tasks|]
      decreases n
    {
      var k' := if k + 1 < |tasks| then k + 1 else 0;
      assert Successor(tasks[k]) == tasks[k'] by {
        assert tasks[k].next == if k + 1 < |tasks| then tasks[k + 1] else null;
      }
      if n > 1 {
        VisitedAt(k', n - 1, if j > 0 then j - 1 else 0);
      }
      if j > 0 {
        Around(k, k', j, |tasks|);
      } else {
        Around(k, k', 0, |tasks|);
      }
    }

    lemma Around(k: nat, k': nat, j: nat, n: nat)
      requires k < n && k' == if k + 1 < n then k + 1 else 0
      ensures (k + 1) % n == k' && (j > 0 ==> (k + 1 + j) % n == (k' + 1 + (j - 1)) % n)
    {
      if k + 1 == n {
        NextBlock(j, n);
        NextBlock(0, n);
      }
    }

    /** From any task, as many steps as there are tasks visit every task once, in list
        order from the next one on, and end where they began. */
    lemma RoundRobin(k: nat)
      requires ForwardLinked() && k < |tasks|
      ensures Visited(tasks[k], |tasks|) == tasks[k + 1..] + tasks[..k + 1]
      ensures multiset(Visited(tasks[k], |tasks|)) == multiset(tasks)
      ensures Visited(tasks[k], |tasks|)[|tasks| - 1] == tasks[k]
    {
      var n := |tasks|;
      var visited, rotated := Visited(tasks[k], n), tasks[k + 1..] + tasks[..k + 1];
      VisitedAt(k, n, 0);
      forall j | 0 <= j < n ensures visited[j] == rotated[j] {
        VisitedAt(k, n, j);
        Rotate(k, j, n);
      }
      assert tasks == tasks[..k + 1] + tasks[k + 1..];
    }

    lemma Rotate(k: nat, j: nat, n: nat)
      requires k < n && j < n
      ensures (k + 1 + j) % n == if k + 1 + j < n then k + 1 + j else k + 1 + j - n
    {
    }
  }
}
