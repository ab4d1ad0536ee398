/** The kernel's task list: doubly linked, with a head, a tail and a current task (task.c). */
module Tasks {
  import opened Words
  import opened Sequences
  import opened RoundRobin

  class Task {
    const directory: word
    var next: Task?
    var prev: Task?

    constructor (directory: word)
      ensures this.directory == directory && next == null && prev == null
    {
      this.directory, next, prev := directory, null, null;
    }
  }

  class Scheduler {
    var head: Task?
    var tail: Task?
    var current: Task?
    /** The page directory the processor translates with (paging_switch). */
    var loaded: word
    ghost var list: seq<Task>

    constructor ()
      ensures Valid() && list == [] && current == null
    {
      head, tail, current, loaded, list := null, null, null, 0, [];
    }

    ghost predicate Forward()
      reads this, list
    {
      && Distinct(list)
      && head == At(list, 0) && tail == At(list, |list| - 1)
      && LinkedOn(list)
      && (current == null || current in list)
    }

    /** The pointers encode the list, in both directions. */
    ghost predicate Valid()
      reads this, list
    {
      Forward() && LinkedBack(list)
    }

    /** What the list means once a task is current. */
    ghost function Queue(): (q: Ready<Task>)
      requires Valid() && current != null
      reads this, list
      ensures Ok(q) && Current(q) == current
    {
      Ready(list, IndexOf(list, current))
    }

    /** The linking half of task_new. */
    method Add(task: Task)
      requires Valid() && task !in list && task.next == null && task.prev == null
      modifies this, list, task
      ensures Valid() && list == old(list) + [task] && current == old(current) && loaded == old(loaded)
      ensures current != null ==> Queue() == Step(old(Queue()), New(task))
    {
      hide IndexOf;
      hide Step;
      ghost var was := list;
      if head == null {
        head, tail := task, task;
      } else {
        tail.next := task;
        task.prev := tail;
        tail := task;
      }
      list := list + [task];
      AfterAdding(was, task);
      hide LinkedOn;
      hide LinkedBack;
      hide Sequences.Distinct;
      if current != null {
        PositionKept(was, task, current);
      }
    }

    /** task_get_next: the one behind the current task, or the head. */
    method GetNext() returns (task: Task?)
      requires Valid() && current != null
      ensures task == Current(Step(Queue(), Switch))
    {
      task := if current.next == null then head else current.next;
    }

    /** task_switch: the task is current, and its page directory is the one in use. */
    method SwitchTo(task: Task)
      requires Valid() && task in list
      modifies this`current, this`loaded
      ensures Valid() && current == task && loaded == task.directory
    {
      current := task;
      loaded := task.directory;
    }

    /** task_get_next followed by task_switch: the next task becomes current. */
    method Turn()
      requires Valid() && current != null
      modifies this`current, this`loaded
      ensures Valid() && current != null && Queue() == Step(old(Queue()), Switch) && loaded == current.directory
    {
      var task := GetNext();
      SwitchTo(task);
      IndexIs(list, Step(old(Queue()), Switch).cur, task);
    }

    /** n turns in a row, recording whom they made current. */
    method Turns(n: nat) returns (trace: seq<Task>)
      requires Valid() && current != null
      modifies this`current, this`loaded
      ensures Valid() && current != null && Queue() == Switches(old(Queue()), n)
      ensures n > 0 ==> loaded == current.directory
      ensures |trace| == n && forall k :: 0 < k <= n ==> trace[k - 1] == Current(Switches(old(Queue()), k))
    {
      hide IndexOf;
      hide LinkedOn;
      hide LinkedBack;
      hide Step;
      trace := [];
      var i := 0;
      while i < n
        invariant 0 <= i <= n && |trace| == i
        invariant Valid() && current != null && (i > 0 ==> loaded == current.directory)
        invariant list == old(list) && Queue() == Switches(old(Queue()), i)
        invariant forall k :: 0 < k <= i ==> trace[k - 1] == Current(Switches(old(Queue()), k))
      {
        Turn();
        trace, i := trace + [current], i + 1;
      }
    }

    /** The first part of task_list_remove. guarded: each neighbour is relinked if it is there; the source looks
        only at the previous one, and without a next one it then stores through a null pointer (stray). */
    method Unlink(task: Task, guarded: bool) returns (stray: bool)
      requires Valid() && task in list
      modifies list
      ensures stray <==> !guarded && task == tail && |list| > 1
      ensures Skipped(list, IndexOf(list, task), guarded)
      ensures task.next == At(list, IndexOf(list, task) as int + 1) && task.prev == At(list, IndexOf(list, task) as int - 1)
    {
      ghost var j := IndexOf(list, task);
      hide IndexOf;
      LinksOf(j);
      stray := false;
      if task.prev != null {
        task.prev.next := task.next;
        if task.next != null {
          task.next.prev := task.prev;
          SkipInside(j);
        } else {
          stray := !guarded;
          SkipTail(j);
        }
      } else if guarded && task.next != null {
        task.next.prev := task.prev;
        SkipHead(j);
      }
    }

    lemma LinksOf(j: nat)
      requires Valid() && j < |list|
      ensures list[j].next == At(list, j + 1) && list[j].prev == At(list, j as int - 1)
      ensures list[j] == tail <==> j + 1 == |list|
    {
    }

    /** Both neighbours relinked. */
    twostate lemma SkipInside(j: nat)
      requires old(Valid()) && list == old(list) && 0 < j && j + 1 < |list|
      requires list[j - 1].next == list[j + 1] && list[j + 1].prev == list[j - 1]
      requires forall i {:trigger list[i].next} :: 0 <= i < |list| && i != j - 1 ==> list[i].next == old(list[i].next)
      requires forall i {:trigger list[i].prev} :: 0 <= i < |list| && i != j + 1 ==> list[i].prev == old(list[i].prev)
      ensures Skipped(list, j, true) && Skipped(list, j, false)
    {
    }

    /** The previous one relinked, where there is no next one. */
    twostate lemma SkipTail(j: nat)
      requires old(Valid()) && list == old(list) && 0 < j && j + 1 == |list| && list[j - 1].next == null
      requires forall i {:trigger list[i].next} :: 0 <= i < |list| && i != j - 1 ==> list[i].next == old(list[i].next)
      requires forall i {:trigger list[i].prev} :: 0 <= i < |list| ==> list[i].prev == old(list[i].prev)
      ensures Skipped(list, j, true) && Skipped(list, j, false)
    {
    }

    /** The next one relinked, where there is no previous one. */
    twostate lemma SkipHead(j: nat)
      requires old(Valid()) && list == old(list) && j == 0 && 1 < |list| && list[1].prev == null
      requires forall i {:trigger list[i].next} :: 0 <= i < |list| ==> list[i].next == old(list[i].next)
      requires forall i {:trigger list[i].prev} :: 0 <= i < |list| && i != 1 ==> list[i].prev == old(list[i].prev)
      ensures Skipped(list, j, true)
    {
    }

    /** The rest of task_list_remove: head, tail and current task move off the task at j. */
    method MoveOff(task: Task, ghost j: nat, ghost cur: nat)
      requires Distinct(list) && j < |list| && list[j] == task && cur < |list| && (current == null || current == list[cur])
      requires head == At(list, 0) && tail == At(list, |list| - 1)
      requires task.next == At(list, j + 1) && task.prev == At(list, j as int - 1)
      modifies this`head, this`tail, this`current
      ensures head == At(Without(list, j), 0) && tail == At(Without(list, j), |list| - 2)
      ensures current == null <==> old(current) == null || |list| == 1
      ensures current != null ==> current == At(Without(list, j), CurAfterRemoval(cur, j, |list|))
    {
      hide RoundRobin.Without;
      if task == head {
        head := task.next;
      }
      if task == tail {
        tail := task.prev;
      }
      if task == current {
        current := if current.next == null then head else current.next;
      }
      WithoutAt(list, j);
    }

    /** task_list_remove. As written it leaves the head of several tasks linked to from behind. When the current task
        goes, its successor becomes current, but the page directory in use stays the removed task's. */
    method Remove(task: Task, guarded: bool) returns (stray: bool)
      requires Valid() && task in list
      modifies this, list
      ensures list == Without(old(list), IndexOf(old(list), task)) && Forward() && loaded == old(loaded)
      ensures Valid() <==> guarded || task != old(head) || |old(list)| == 1
      ensures stray <==> !guarded && task == old(tail) && |old(list)| > 1
      ensures current == null <==> old(current) == null || list == []
      ensures current != null ==> Ready(list, IndexOf(list, current)) == Step(old(Queue()), RoundRobin.Remove(task))
    {
      hide RoundRobin.Without;
      hide LinkedOn;
      hide LinkedBack;
      hide Skipped;
      hide CurAfterRemoval;
      hide Step;
      hide Sequences.Distinct;
      ghost var was, j, cur := list, IndexOf(list, task), if current == null then 0 else IndexOf(list, current);
      IndexIs(was, |was| - 1, tail);
      hide IndexOf;
      stray := Unlink(task, guarded);
      MoveOff(task, j, cur);
      list := Without(list, j);
      AfterRemoval(was, j, guarded);
      if current != null {
        CurrentAfter(was, j, cur, current);
      }
    }
  }

  /** The list with a task linked to its end. */
  lemma AfterAdding(list: seq<Task>, task: Task)
    requires Distinct(list) && task !in list && task.next == null && task.prev == At(list, |list| - 1)
    requires forall i {:trigger list[i].next} :: 0 <= i < |list| ==> list[i].next == At(list + [task], i + 1)
    requires LinkedBack(list)
    ensures Distinct(list + [task]) && LinkedOn(list + [task]) && LinkedBack(list + [task])
  {
  }

  /** A task's position stays when another joins behind it. */
  lemma PositionKept(list: seq<Task>, task: Task, x: Task)
    requires Distinct(list) && Distinct(list + [task]) && x in list && task !in list
    ensures Ready(list + [task], IndexOf(list + [task], x)) == Step(Ready(list, IndexOf(list, x)), New(task))
  {
    IndexIs(list + [task], IndexOf(list, x), x);
  }

  /** The list without position j: linked as it should be, both ways or forwards only. */
  lemma AfterRemoval(list: seq<Task>, j: nat, guarded: bool)
    requires Distinct(list) && j < |list| && Skipped(list, j, guarded)
    ensures Distinct(Without(list, j)) && |Without(list, j)| == |list| - 1 && LinkedOn(Without(list, j))
    ensures LinkedBack(Without(list, j)) <==> guarded || j > 0 || |list| == 1
  {
    WithoutAt(list, j);
    SkippedOn(list, j, guarded);
    SkippedBack(list, j, guarded);
  }

  /** The current task and its position once position j is gone. */
  lemma CurrentAfter(list: seq<Task>, j: nat, cur: nat, x: Task)
    requires Distinct(list) && j < |list| && cur < |list| && At(Without(list, j), CurAfterRemoval(cur, j, |list|)) == x
    ensures var w := Without(list, j);
      x in w && Ready(w, IndexOf(w, x)) == Step(Ready(list, cur), RoundRobin.Remove(list[j]))
  {
    hide IndexOf;
    WithoutAt(list, j);
    IndexIs(list, j, list[j]);
    IndexIs(Without(list, j), CurAfterRemoval(cur, j, |list|), x);
  }

  ghost predicate LinkedOn(list: seq<Task>)
    reads list
  {
    forall i {:trigger list[i].next} :: 0 <= i < |list| ==> list[i].next == At(list, i + 1)
  }

  ghost predicate LinkedBack(list: seq<Task>)
    reads list
  {
    forall i {:trigger list[i].prev} :: 0 <= i < |list| ==> list[i].prev == At(list, i - 1)
  }

  /** Linked but for the task at j, which is passed over: forwards always, backwards if it has a predecessor or
      the neighbours were relinked separately. */
  ghost predicate Skipped(list: seq<Task>, j: nat, guarded: bool)
    reads list
  {
    && (forall i {:trigger list[i].next} :: 0 <= i < |list| ==>
        list[i].next == if i + 1 == j then At(list, i + 2) else At(list, i + 1))
    && (forall i {:trigger list[i].prev} :: 0 <= i < |list| ==>
        list[i].prev == if i == j + 1 && (guarded || j > 0) then At(list, i - 2) else At(list, i - 1))
  }

  lemma SkippedOn(list: seq<Task>, j: nat, guarded: bool)
    requires Distinct(list) && j < |list| && Skipped(list, j, guarded)
    ensures LinkedOn(Without(list, j))
  {
    WithoutAt(list, j);
    hide RoundRobin.Without;
  }

  lemma SkippedBack(list: seq<Task>, j: nat, guarded: bool)
    requires Distinct(list) && j < |list| && Skipped(list, j, guarded)
    ensures LinkedBack(Without(list, j)) <==> guarded || j > 0 || |list| == 1
  {
    WithoutAt(list, j);
    hide RoundRobin.Without;
    var w := Without(list, j);
    if !guarded && j == 0 && |list| > 1 {
      assert w[0].prev == list[0];
    }
  }

  /** Taking one position out of a list. */
  lemma WithoutAt(list: seq<Task>, j: nat)
    requires Distinct(list) && j < |list|
    ensures |Without(list, j)| == |list| - 1 && Distinct(Without(list, j)) && list[j] !in Without(list, j)
    ensures forall i :: 0 <= i < |list| - 1 ==> Without(list, j)[i] == list[if i < j then i else i + 1]
    ensures forall x :: x in list && x != list[j] ==> x in Without(list, j)
  {
    var w := Without(list, j);
    forall x | x in list && x != list[j] ensures x in w {
      var i :| 0 <= i < |list| && list[i] == x;
      assert w[if i < j then i else i - 1] == x;
    }
  }

  ghost function At(list: seq<Task>, i: int): Task? {
    if 0 <= i < |list| then list[i] else null
  }

  lemma IndexIs(list: seq<Task>, i: nat, x: Task)
    requires Distinct(list) && i < |list| && list[i] == x
    ensures x in list && IndexOf(list, x) == i
  {
  }
}
