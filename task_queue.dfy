/**
 * The FIFO run queue of kernel/tasks/task_queue.c: a singly linked list of
 * tasks threaded through `task->next`, with pointers to its first (`start`)
 * and last (`end`) task.  The ghost sequence `Tasks` lists the queued tasks
 * from `start` to `end`.
 */
module TaskQueues {

  /** The part of a task the queue uses: its link to the next queued task. */
  class Task {
    var next: Task?

    constructor ()
      ensures next == null
    {
      next := null;
    }
  }

  class TaskQueue {
    var start: Task?
    var end: Task?
    ghost var Tasks: seq<Task>
    ghost var Repr: set<Task>

    ghost predicate Valid()
      reads this, Repr
    {
      Repr == (set t | t in Tasks) &&
      (forall i, j :: 0 <= i < j < |Tasks| ==> Tasks[i] != Tasks[j]) &&
      (Tasks == [] ==> start == null && end == null) &&
      (Tasks != [] ==> start == Tasks[0] && end == Tasks[|Tasks| - 1] && end.next == null) &&
      (forall i :: 0 <= i < |Tasks| - 1 ==> Tasks[i].next == Tasks[i + 1])
    }

    /** An empty queue: both pointers `NULL`. */
    constructor ()
      ensures Valid() && Tasks == [] && Repr == {}
    {
      start, end := null, null;
      Tasks, Repr := [], {};
    }

    /** In a valid queue the only queued task whose `next` is `NULL` is the last one. */
    lemma OnlyEndUnlinked(t: Task)
      requires Valid() && t in Repr && t.next == null
      ensures t == end
    {
      forall j | 0 <= j < |Tasks| - 1
        ensures Tasks[j].next != null
      {
        assert Tasks[j].next == Tasks[j + 1];
      }
      var i :| 0 <= i < |Tasks| && Tasks[i] == t;
    }

    /**
     * `task_queue_enque`: panics in the `kassert` unless the task's `next`
     * is `NULL`; otherwise the task becomes the last of the queue, and also
     * the first when the queue was empty.  The queue's own last task passes
     * the `kassert`, and linking it after itself makes the queue cyclic.
     */
    method Enqueue(task: Task) returns (panicked: bool)
      requires Valid()
      modifies this, Repr
      ensures panicked <==> old(task.next) != null
      ensures panicked ==> unchanged(this) && unchanged(Repr)
      ensures !panicked && task !in old(Repr) ==>
        Valid() && Tasks == old(Tasks) + [task] && Repr == old(Repr) + {task} && end == task
      ensures !panicked && task !in old(Repr) && old(Tasks) == [] ==> start == task
      ensures !panicked && task in old(Repr) ==>
        task == old(end) && task.next == task && start == old(start) && end == task
    {
      if task.next != null {
        return true;
      }
      panicked := false;
      if task in Repr {
        OnlyEndUnlinked(task);
      }
      ghost var queued := task in Repr;
      if start == null {
        start := task;
      } else {
        end.next := task;
      }
      end := task;
      if !queued {
        Tasks := Tasks + [task];
        Repr := Repr + {task};
        assert forall i :: 0 <= i < |Tasks| - 2 ==> Tasks[i].next == old(Tasks[i].next);
      }
    }

    /**
     * `task_queue_add_first`: panics in the `kassert` unless the task's
     * `next` is `NULL`; otherwise the task becomes the first of the queue,
     * and also the last when the queue was empty.  The queue's own last task
     * passes the `kassert` and is linked back to the first, a cycle.
     */
    method AddFirst(task: Task) returns (panicked: bool)
      requires Valid()
      modifies this, task
      ensures panicked <==> old(task.next) != null
      ensures panicked ==> unchanged(this) && unchanged(task)
      ensures !panicked && task !in old(Repr) ==>
        Valid() && Tasks == [task] + old(Tasks) && Repr == old(Repr) + {task} && start == task
      ensures !panicked && task !in old(Repr) && old(Tasks) == [] ==> end == task
      ensures !panicked && task in old(Repr) ==>
        task == old(end) && task.next == old(start) && start == task && end == task
    {
      if task.next != null {
        return true;
      }
      panicked := false;
      if task in Repr {
        OnlyEndUnlinked(task);
      }
      ghost var queued := task in Repr;
      task.next := start;
      start := task;
      if start.next == null {
        end := start;
      }
      if !queued {
        Tasks := [task] + Tasks;
        Repr := Repr + {task};
      }
    }

    /**
     * `task_queue_enque` with the check it evidently intends, that the task
     * is not queued already: the `kassert` also rejects the last task.
     */
    method EnqueueChecked(task: Task) returns (panicked: bool)
      requires Valid()
      modifies this, Repr
      ensures panicked <==> old(task.next) != null || task in old(Repr)
      ensures panicked ==> unchanged(this) && unchanged(Repr)
      ensures !panicked ==> Valid() && Tasks == old(Tasks) + [task] && Repr == old(Repr) + {task} && end == task
    {
      if task.next != null || task == end {
        return true;
      }
      if task in Repr {
        OnlyEndUnlinked(task);
      }
      panicked := Enqueue(task);
    }

    /** `task_queue_add_first` with the evidently intended check: the last task is rejected too. */
    method AddFirstChecked(task: Task) returns (panicked: bool)
      requires Valid()
      modifies this, task
      ensures panicked <==> old(task.next) != null || task in old(Repr)
      ensures panicked ==> unchanged(this) && unchanged(task)
      ensures !panicked ==> Valid() && Tasks == [task] + old(Tasks) && Repr == old(Repr) + {task} && start == task
    {
      if task.next != null || task == end {
        return true;
      }
      if task in Repr {
        OnlyEndUnlinked(task);
      }
      panicked := AddFirst(task);
    }

    /**
     * `task_queue_dequeue`: `NULL` and no change on an empty queue; otherwise
     * the first task, unlinked (its `next` cleared), with `end` cleared when
     * the queue becomes empty.
     */
    method Dequeue() returns (task: Task?)
      requires Valid()
      modifies this, Repr
      ensures Valid()
      ensures old(Tasks) == [] ==> task == null && Tasks == [] && unchanged(this)
      ensures old(Tasks) != [] ==>
        task == old(Tasks[0]) && Tasks == old(Tasks[1..]) && Repr == old(Repr) - {task} && task.next == null
      ensures Tasks == [] ==> start == null && end == null
    {
      task := start;
      if task != null {
        start := start.next;
        if start == null {
          end := null;
        }
        task.next := null;
        Tasks := Tasks[1..];
        Repr := Repr - {task};
        assert forall i :: 0 <= i < |Tasks| ==> Tasks[i] != task;
      }
    }
  }

  /** Enqueue and dequeue are first-in first-out: two tasks come out in the order they went in. */
  method FifoOrder(q: TaskQueue, a: Task, b: Task) returns (x: Task?, y: Task?)
    requires q.Valid() && q.Tasks == [] && a != b && a.next == null && b.next == null
    modifies q, a, b
    ensures x == a && y == b && q.Valid() && q.Tasks == []
  {
    var panicked := q.Enqueue(a);
    panicked := q.Enqueue(b);
    x := q.Dequeue();
    y := q.Dequeue();
  }

  /**
   * Enqueueing the only task of a queue a second time passes the `kassert`,
   * since the last task's `next` is `NULL`, and links the task to itself.
   */
  method RequeueEndMakesCycle() returns (q: TaskQueue, t: Task)
    ensures q.start == t && q.end == t && t.next == t
  {
    q := new TaskQueue();
    t := new Task();
    var panicked := q.Enqueue(t);
    panicked := q.Enqueue(t);
  }
}
