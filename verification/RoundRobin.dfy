/** Round-robin order: what the task list means, as a sequence and a position in it. */
module RoundRobin {
  import opened Sequences

  /** The tasks in list order, and the position of the current one. */
  datatype Ready<T> = Ready(list: seq<T>, cur: nat)

  datatype Op<T> = Switch | New(task: T) | Remove(task: T)

  ghost predicate Ok<T>(q: Ready<T>) {
    q.cur < |q.list| && Distinct(q.list)
  }

  ghost function Current<T>(q: Ready<T>): T
    requires Ok(q)
  {
    q.list[q.cur]
  }

  ghost function IndexOf<T>(list: seq<T>, x: T): (i: nat)
    requires x in list
    ensures i < |list| && list[i] == x && forall j :: 0 <= j < i ==> list[j] != x
  {
    if list[0] == x then 0 else 1 + IndexOf(list[1..], x)
  }

  ghost function Without<T>(list: seq<T>, i: nat): seq<T>
    requires i < |list|
  {
    list[..i] + list[i + 1..]
  }

  /** The position after i, back to the head behind the last. */
  ghost function After(i: nat, n: nat): nat {
    if i + 1 < n then i + 1 else 0
  }

  /** What may happen: a new task is not in the list yet, and the last one is not removed. */
  ghost predicate Enabled<T>(q: Ready<T>, op: Op<T>) {
    match op
    case Switch => true
    case New(x) => x !in q.list
    case Remove(x) => x in q.list && |q.list| > 1
  }

  ghost function Step<T>(q: Ready<T>, op: Op<T>): (r: Ready<T>)
    requires Ok(q) && Enabled(q, op)
    ensures Ok(r)
  {
    match op
    case Switch => Ready(q.list, After(q.cur, |q.list|))
    case New(x) => Ready(q.list + [x], q.cur)
    case Remove(x) => Ready(Without(q.list, IndexOf(q.list, x)), CurAfterRemoval(q.cur, IndexOf(q.list, x), |q.list|))
  }

  /** Where the current task is once position j is gone; its successor is current if it was the one removed. */
  ghost function CurAfterRemoval(cur: nat, j: nat, n: nat): nat {
    if j < cur then cur - 1 else if j > cur || cur + 1 < n then cur else 0
  }

  /** Removing the current task hands over to the one a switch would have made current; removing another changes nothing. */
  lemma RemovalHandsOver<T>(q: Ready<T>, x: T)
    requires Ok(q) && x in q.list && |q.list| > 1
    ensures Current(Step(q, Remove(x))) == if x == Current(q) then Current(Step(q, Switch)) else Current(q)
    ensures forall y :: y in Step(q, Remove(x)).list <==> y in q.list && y != x
  {
    var j, w := IndexOf(q.list, x), Step(q, Remove(x)).list;
    forall y ensures y in w <==> y in q.list && y != x {
      if y in q.list && y != x {
        var i := IndexOf(q.list, y);
        assert w[if i < j then i else i - 1] == y;
      }
    }
  }

  // ---- one round ----

  ghost function Switches<T>(q: Ready<T>, k: nat): (r: Ready<T>)
    requires Ok(q)
    ensures Ok(r) && r.list == q.list
  {
    if k == 0 then q else Step(Switches(q, k - 1), Switch)
  }

  lemma {:induction false} SwitchesPosition<T>(q: Ready<T>, k: nat)
    requires Ok(q) && k <= |q.list|
    ensures Switches(q, k) == Ready(q.list, if q.cur + k < |q.list| then q.cur + k else q.cur + k - |q.list|)
  {
    if k > 0 {
      SwitchesPosition(q, k - 1);
    }
  }

  /** Within one round, the k-th switch makes x current. */
  ghost predicate Turn<T>(q: Ready<T>, k: nat, x: T)
    requires Ok(q)
  {
    0 < k <= |q.list| && Current(Switches(q, k)) == x
  }

  /** n switches among n tasks come back to where they began, having made every task current exactly once. */
  lemma EachOnce<T>(q: Ready<T>)
    requires Ok(q)
    ensures Switches(q, |q.list|) == q
    ensures forall x :: x in q.list ==> exists k :: Turn(q, k, x)
    ensures forall j, k, x :: Turn(q, j, x) && Turn(q, k, x) ==> j == k
  {
    hide Switches;
    SwitchesPosition(q, |q.list|);
    forall x | x in q.list ensures exists k :: Turn(q, k, x) {
      var i := IndexOf(q.list, x);
      var k := if i > q.cur then i - q.cur else i - q.cur + |q.list|;
      SwitchesPosition(q, k);
      assert Turn(q, k, x);
    }
    forall j, k, x | Turn(q, j, x) && Turn(q, k, x) ensures j == k {
      SwitchesPosition(q, j);
      SwitchesPosition(q, k);
    }
  }

  // ---- any run ----

  ghost predicate IsRun<T>(q: Ready<T>, ops: seq<Op<T>>)
    decreases |ops|
  {
    Ok(q) && (ops == [] || (Enabled(q, ops[0]) && IsRun(Step(q, ops[0]), ops[1..])))
  }

  /** Some operation of the run makes y current. */
  ghost predicate Scheduled<T>(q: Ready<T>, ops: seq<Op<T>>, y: T)
    requires IsRun(q, ops)
    decreases |ops|
  {
    ops != [] && (Current(Step(q, ops[0])) == y || Scheduled(Step(q, ops[0]), ops[1..], y))
  }

  ghost function CountSwitches<T>(ops: seq<Op<T>>): nat {
    if ops == [] then 0 else (if ops[0].Switch? then 1 else 0) + CountSwitches(ops[1..])
  }

  ghost function CountNew<T>(ops: seq<Op<T>>): nat {
    if ops == [] then 0 else (if ops[0].New? then 1 else 0) + CountNew(ops[1..])
  }

  /** Switches until y is current next. */
  ghost function Distance<T>(q: Ready<T>, y: T): (d: nat)
    requires Ok(q) && y in q.list
    ensures 0 < d <= |q.list|
  {
    var i := IndexOf(q.list, y);
    if i > q.cur then i - q.cur else i + |q.list| - q.cur
  }

  ghost function Delay<T>(op: Op<T>): int {
    match op case Switch => -1 case New(_) => 1 case Remove(_) => 0
  }

  /** A switch brings y nearer, a new task delays it by at most one, a removal not at all. */
  lemma DistanceStep<T>(q: Ready<T>, op: Op<T>, y: T)
    requires Ok(q) && Enabled(q, op) && y in q.list && op != Remove(y)
    ensures y in Step(q, op).list
    ensures Current(Step(q, op)) == y || Distance(Step(q, op), y) <= Distance(q, y) + Delay(op)
  {
    match op
    case Switch =>
    case New(x) =>
      assert Step(q, op).list[IndexOf(q.list, y)] == y;
    case Remove(x) =>
      DistanceAfterRemoval(q, x, y);
  }

  lemma DistanceAfterRemoval<T>(q: Ready<T>, x: T, y: T)
    requires Ok(q) && x in q.list && |q.list| > 1 && y in q.list && x != y
    ensures var r := Step(q, Remove(x)); y in r.list && (Current(r) == y || Distance(r, y) <= Distance(q, y))
  {
    var r, i, j := Step(q, Remove(x)), IndexOf(q.list, y), IndexOf(q.list, x);
    var k := if i < j then i else i - 1;
    assert r.list[k] == y;
    assert IndexOf(r.list, y) == k;
    hide IndexOf;
  }

  /** No task starves: within as many switches as there are tasks, plus one per task that joins, each task runs. */
  lemma {:induction false} NoStarvation<T>(q: Ready<T>, ops: seq<Op<T>>, y: T)
    requires IsRun(q, ops) && y in q.list && Remove(y) !in ops
    requires CountSwitches(ops) >= Distance(q, y) + CountNew(ops)
    ensures Scheduled(q, ops, y)
    decreases |ops|
  {
    var d := Distance(q, y);
    assert d > 0;
    DistanceStep(q, ops[0], y);
    var r := Step(q, ops[0]);
    if Current(r) != y {
      NoStarvation(r, ops[1..], y);
    }
  }
}
