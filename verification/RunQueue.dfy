/** The virtual-runtime run queue: a binary min-heap of shared task objects, sifted in place. */
module RunQueue {
  import opened Arith
  import opened Bytes

  class Task {
    const id: nat
    const baseWeight: int
    var vruntime: nat

    constructor (id: nat, baseWeight: int, vruntime: nat)
      ensures this.id == id && this.baseWeight == baseWeight && this.vruntime == vruntime
    {
      this.id, this.baseWeight, this.vruntime := id, baseWeight, vruntime;
    }
  }

  function Parent(i: nat): (p: nat)
    requires i > 0
    ensures p < i
  {
    (i - 1) / 2
  }

  lemma ParentChild(i: nat, p: nat)
    requires i > 0
    ensures Parent(i) == p <==> i == 2 * p + 1 || i == 2 * p + 2
  {
  }

  function Swapped<T>(s: seq<T>, i: nat, j: nat): (r: seq<T>)
    requires i < |s| && j < |s|
    ensures |r| == |s| && r[i] == s[j] && r[j] == s[i]
    ensures forall k :: 0 <= k < |s| && k != i && k != j ==> r[k] == s[k]
  {
    s[i := s[j]][j := s[i]]
  }

  lemma SwapPermutes<T>(s: seq<T>, i: nat, j: nat)
    requires i < |s| && j < |s|
    ensures multiset(Swapped(s, i, j)) == multiset(s)
  {
  }

  // Heap order is a property of the keys alone; the predicates below speak of the key at each position.

  ghost predicate Ordered(k: seq<nat>) {
    forall i :: 0 < i < |k| ==> k[Parent(i)] <= k[i]
  }

  /** Every child at least its parent, except possibly the child `skip`. */
  ghost predicate OrderedExcept(k: seq<nat>, skip: nat) {
    forall i :: 0 < i < |k| && i != skip ==> k[Parent(i)] <= k[i]
  }

  /** Every child at least its parent, except possibly under the parent `skip`. */
  ghost predicate OrderedBelow(k: seq<nat>, skip: nat) {
    forall i :: 0 < i < |k| && Parent(i) != skip ==> k[Parent(i)] <= k[i]
  }

  /** The children of `i` are no smaller than `i`'s own parent. */
  ghost predicate Bridged(k: seq<nat>, i: nat) {
    0 < i < |k| ==> forall c :: 0 < c < |k| && Parent(c) == i ==> k[Parent(i)] <= k[c]
  }

  /** The root of an ordered heap is minimal. */
  lemma {:induction false} RootIsMin(k: seq<nat>, i: nat)
    requires Ordered(k) && i < |k|
    ensures k[0] <= k[i]
    decreases i
  {
    if i > 0 { RootIsMin(k, Parent(i)); }
  }

  lemma SwapUp(k: seq<nat>, i: nat)
    requires 0 < i < |k| && OrderedExcept(k, i) && Bridged(k, i) && k[i] < k[Parent(i)]
    ensures OrderedExcept(Swapped(k, Parent(i), i), Parent(i)) && Bridged(Swapped(k, Parent(i), i), Parent(i))
  {
    var p, r := Parent(i), Swapped(k, Parent(i), i);
    forall c | 0 < c < |r| && c != p ensures r[Parent(c)] <= r[c] {
      if Parent(c) == p && c != i { assert k[p] <= k[c]; }
    }
    if p > 0 {
      forall c | 0 < c < |r| && Parent(c) == p ensures r[Parent(p)] <= r[c] {
        assert k[Parent(p)] <= k[p];
        if c != i { assert k[p] <= k[c]; }
      }
    }
  }

  lemma SwapDown(k: seq<nat>, i: nat, c: nat)
    requires 0 < c < |k| && Parent(c) == i && OrderedBelow(k, i) && Bridged(k, i) && k[c] < k[i]
    requires forall b :: 0 < b < |k| && Parent(b) == i ==> k[c] <= k[b]
    ensures OrderedBelow(Swapped(k, i, c), c) && Bridged(Swapped(k, i, c), c)
  {
    var r := Swapped(k, i, c);
    forall b | 0 < b < |r| && Parent(b) != c ensures r[Parent(b)] <= r[b] {
      if b == i { assert k[Parent(i)] <= k[c]; }
    }
    forall b | 0 < b < |r| && Parent(b) == c ensures r[Parent(c)] <= r[b] {
      assert k[Parent(b)] <= k[b];
    }
  }

  /** A leaf appended to an ordered heap is the only node that may be out of order. */
  lemma Appended(k: seq<nat>, x: nat)
    requires Ordered(k)
    ensures OrderedExcept(k + [x], |k|) && Bridged(k + [x], |k|)
  {
    var r := k + [x];
    forall i | 0 < i < |r| && i != |k| ensures r[Parent(i)] <= r[i] { assert k[Parent(i)] <= k[i]; }
    forall c | 0 < c < |r| ensures Parent(c) != |k| {}
  }

  /** Moving the last node into the root disturbs the order only under the root. */
  lemma LastToRoot(k: seq<nat>, r: seq<nat>)
    requires Ordered(k) && |k| == |r| + 1 && forall i :: 0 < i < |r| ==> r[i] == k[i]
    ensures OrderedBelow(r, 0) && Bridged(r, 0)
  {
    forall i | 0 < i < |r| && Parent(i) != 0 ensures r[Parent(i)] <= r[i] { assert k[Parent(i)] <= k[i]; }
  }

  lemma RemoveRoot<T>(s: seq<T>, r: seq<T>)
    requires |s| == |r| + 1 && forall i :: 0 < i < |r| ==> r[i] == s[i]
    requires r != [] ==> r[0] == s[|s| - 1]
    ensures multiset(s) == multiset(r) + multiset{s[0]}
  {
    if r == [] {
      assert s == [s[0]];
    } else {
      var mid := s[1..|s| - 1];
      assert s == [s[0]] + mid + [s[|s| - 1]];
      assert r == [s[|s| - 1]] + mid;
    }
  }

  /** The virtual runtimes of the tasks at each position. */
  ghost function Keys(s: seq<Task?>): (k: seq<nat>)
    requires forall i :: 0 <= i < |s| ==> s[i] != null
    reads s
    ensures |k| == |s| && forall i :: 0 <= i < |s| ==> k[i] == s[i].vruntime
  {
    if s == [] then [] else Keys(s[..|s| - 1]) + [s[|s| - 1].vruntime]
  }

  lemma Settled(k: seq<nat>, i: nat)
    requires i < |k| && OrderedExcept(k, i) && (i > 0 ==> k[Parent(i)] <= k[i])
    ensures Ordered(k)
  {
  }

  lemma SettledBelow(k: seq<nat>, i: nat)
    requires i < |k| && OrderedBelow(k, i)
    requires 2 * i + 1 < |k| ==> k[i] <= k[2 * i + 1]
    requires 2 * i + 2 < |k| ==> k[i] <= k[2 * i + 2]
    ensures Ordered(k)
  {
    forall c | 0 < c < |k| ensures k[Parent(c)] <= k[c] { ParentChild(c, i); }
  }

  lemma OrderedNone(k: seq<nat>)
    requires |k| == 0
    ensures Ordered(k)
  {
  }

  class TaskHeap {
    const nodes: array<Task?>
    var size: nat

    ghost predicate Shaped()
      reads this, nodes
    {
      size <= nodes.Length && forall i :: 0 <= i < size ==> nodes[i] != null
    }

    /** The heap invariant. */
    ghost predicate Valid()
      reads this, nodes, nodes[..]
    {
      Shaped() && Ordered(Keys(Contents()))
    }

    ghost function Contents(): seq<Task?>
      requires Shaped()
      reads this, nodes
    {
      nodes[..size]
    }

    /** The first `|k|` nodes are tasks with the keys `k`. */
    ghost predicate Holds(k: seq<nat>)
      reads nodes, nodes[..]
    {
      |k| <= nodes.Length && forall i :: 0 <= i < |k| ==> nodes[i] != null && nodes[i].vruntime == k[i]
    }

    lemma HoldsKeys(k: seq<nat>)
      requires Shaped() && |k| == size
      ensures Holds(k) <==> k == Keys(Contents())
    {
      assert forall i :: 0 <= i < size ==> Contents()[i] == nodes[i];
    }

    /** `BHARAT_MAX_TASKS` depends on the build profile. */
    constructor (maxTasks: nat)
      ensures Valid() && Contents() == [] && nodes.Length == maxTasks && fresh(nodes)
    {
      nodes := new Task?[maxTasks](_ => null);
      size := 0;
    }

    method Swap(i: nat, j: nat, ghost k: seq<nat>)
      requires i < |k| && j < |k| && Holds(k)
      modifies nodes
      ensures Holds(Swapped(k, i, j))
      ensures nodes[..|k|] == Swapped(old(nodes[..|k|]), i, j) && nodes[|k|..] == old(nodes[|k|..])
    {
      var temp := nodes[i];
      nodes[i] := nodes[j];
      nodes[j] := temp;
    }

    /** `heap_sift_up`, on nodes with the keys `k0`. */
    method SiftUp(index: nat, ghost k0: seq<nat>) returns (ghost k: seq<nat>)
      requires index < |k0| && Holds(k0) && OrderedExcept(k0, index) && Bridged(k0, index)
      modifies nodes
      ensures |k| == |k0| && Holds(k) && Ordered(k)
      ensures multiset(nodes[..|k|]) == old(multiset(nodes[..|k0|])) && nodes[|k|..] == old(nodes[|k0|..])
    {
      hide Swapped, OrderedExcept, Bridged, Ordered;
      var i: nat := index;
      k := k0;
      while i > 0
        invariant i < |k| == |k0| && Holds(k) && OrderedExcept(k, i) && Bridged(k, i)
        invariant multiset(nodes[..|k|]) == old(multiset(nodes[..|k0|])) && nodes[|k|..] == old(nodes[|k0|..])
      {
        var parent := (i - 1) / 2;
        if nodes[parent].vruntime <= nodes[i].vruntime { break; }
        SwapUp(k, i);
        SwapPermutes(nodes[..|k|], parent, i);
        Swap(parent, i, k);
        k := Swapped(k, parent, i);
        i := parent;
      }
      Settled(k, i);
    }

    /** `heap_sift_down` */
    method SiftDown(index: nat, ghost k0: seq<nat>) returns (ghost k: seq<nat>)
      requires index < |k0| == size && Holds(k0) && OrderedBelow(k0, index) && Bridged(k0, index)
      modifies nodes
      ensures |k| == size && Holds(k) && Ordered(k)
      ensures multiset(nodes[..size]) == old(multiset(nodes[..size]))
    {
      hide Swapped, OrderedBelow, Bridged, Ordered;
      var i: nat := index;
      k := k0;
      while true
        invariant i < |k| == size && Holds(k) && OrderedBelow(k, i) && Bridged(k, i)
        invariant multiset(nodes[..size]) == old(multiset(nodes[..size]))
        decreases size - i
      {
        var left, right, smallest := 2 * i + 1, 2 * i + 2, i;
        if left < size && nodes[left].vruntime < nodes[smallest].vruntime { smallest := left; }
        if right < size && nodes[right].vruntime < nodes[smallest].vruntime { smallest := right; }
        if smallest == i { break; }
        SwapDown(k, i, smallest);
        SwapPermutes(nodes[..size], i, smallest);
        Swap(i, smallest, k);
        k := Swapped(k, i, smallest);
        i := smallest;
      }
      SettledBelow(k, i);
    }

    lemma HoldsShaped(k: seq<nat>)
      requires |k| == size && Holds(k)
      ensures Shaped()
    {
    }

    method AppendLeaf(task: Task, ghost k: seq<nat>)
      requires Shaped() && size < nodes.Length && |k| == size && Holds(k)
      modifies nodes
      ensures Shaped() && Holds(k + [task.vruntime])
      ensures multiset(nodes[..size + 1]) == old(multiset(Contents())) + multiset{task}
    {
      ghost var s := Contents();
      nodes[size] := task;
      assert nodes[..size + 1] == s + [task];
    }

    /** Append a leaf and sift it up. */
    method Push(task: Task)
      requires Valid() && size < nodes.Length
      modifies this`size, nodes
      ensures Valid() && size == old(size) + 1
      ensures multiset(Contents()) == old(multiset(Contents())) + multiset{task}
    {
      hide OrderedExcept, Bridged, Ordered, Keys, Holds;
      ghost var k := Keys(Contents());
      HoldsKeys(k);
      AppendLeaf(task, k);
      Appended(k, task.vruntime);
      ghost var k1 := SiftUp(size, k + [task.vruntime]);
      size := size + 1;
      HoldsShaped(k1);
      HoldsKeys(k1);
    }

    method MoveLastToRoot(ghost k: seq<nat>) returns (min: Task, ghost r: seq<nat>)
      requires Shaped() && |k| == size && Holds(k) && size > 0
      modifies this`size, nodes
      ensures Shaped() && size == old(size) - 1 && min == old(nodes[0])
      ensures old(multiset(Contents())) == multiset(Contents()) + multiset{min}
      ensures r == (if size > 0 then k[..size][0 := k[size]] else []) && Holds(r)
    {
      ghost var s := Contents();
      min := nodes[0];
      nodes[0] := nodes[size - 1];
      size := size - 1;
      RemoveRoot(s, nodes[..size]);
      r := if size > 0 then k[..size][0 := k[size]] else [];
      forall i | 0 <= i < |r| ensures nodes[i] != null && nodes[i].vruntime == r[i] {
        if i > 0 { assert nodes[i] == s[i] && r[i] == k[i]; }
      }
    }

    /** Take the root, move the last leaf there and sift it down. */
    method Pop() returns (min: Task)
      requires Valid() && size > 0
      modifies this`size, nodes
      ensures Valid() && size == old(size) - 1
      ensures old(multiset(Contents())) == multiset(Contents()) + multiset{min}
      ensures forall i :: 0 <= i < old(size) ==> min.vruntime <= old(nodes[i].vruntime)
    {
      hide OrderedBelow, Bridged, Ordered, Keys;
      ghost var k := Keys(Contents());
      HoldsKeys(k);
      forall i | 0 <= i < size ensures k[0] <= k[i] { RootIsMin(k, i); }
      ghost var r;
      min, r := MoveLastToRoot(k);
      if size > 0 {
        LastToRoot(k, r);
        r := SiftDown(0, r);
      } else {
        OrderedNone(r);
      }
      HoldsKeys(r);
    }

    /** `heap_insert`: a full heap drops the task. */
    method Insert(task: Task)
      requires Valid()
      modifies this`size, nodes
      ensures Valid()
      ensures old(size) < nodes.Length ==>
        size == old(size) + 1 && multiset(Contents()) == old(multiset(Contents())) + multiset{task}
      ensures old(size) == nodes.Length ==> Contents() == old(Contents())
    {
      hide Ordered, Keys;
      if size >= nodes.Length { return; }
      Push(task);
    }

    /** `heap_extract_min`: no task only from an empty heap; otherwise one of least vruntime. */
    method ExtractMin() returns (min: Task?)
      requires Valid()
      modifies this`size, nodes
      ensures Valid() && (min == null <==> old(size) == 0)
      ensures min == null ==> Contents() == old(Contents())
      ensures min != null ==> size == old(size) - 1
      ensures min != null ==> old(multiset(Contents())) == multiset(Contents()) + multiset{min}
      ensures min != null ==> forall i :: 0 <= i < old(size) ==> min.vruntime <= old(nodes[i].vruntime)
    {
      hide Ordered, Keys;
      if size == 0 { return null; }
      min := Pop();
    }
  }

  // ------------------------------------------------------------------ selection

  function Weight(baseWeight: int): (w: nat)
    ensures w >= 1
  {
    if baseWeight > 0 then baseWeight else 1
  }

  /** What a run of `execution` costs a task, in 64-bit arithmetic. */
  function Charge(execution: nat, systemWeight: nat, baseWeight: int): nat {
    execution * systemWeight % TWO64 / Weight(baseWeight)
  }

  /** `delta` is the whole number of weight units in the 64-bit product of execution time and system weight. */
  predicate ChargedFor(execution: nat, systemWeight: nat, baseWeight: int, delta: nat) {
    var w, work := if baseWeight > 0 then baseWeight else 1, execution * systemWeight % TWO64;
    w * delta <= work < w * (delta + 1)
  }

  /** The charge is that number, and no other one is. */
  lemma ChargeMeaning(execution: nat, systemWeight: nat, baseWeight: int, delta: nat)
    ensures ChargedFor(execution, systemWeight, baseWeight, delta) <==>
            delta == Charge(execution, systemWeight, baseWeight)
  {
    QuotientBounds(execution * systemWeight % TWO64, Weight(baseWeight), delta);
  }

  /** The runtime has grown by the work over the weight, rounded down. */
  predicate GrownBy(was: nat, now: nat, work: nat, baseWeight: int) {
    var w := if baseWeight > 0 then baseWeight else 1;
    was <= now && w * (now - was) <= work < w * (now - was + 1)
  }

  /** Where the work fits 64 bits on top of the runtime nothing wraps. */
  lemma GrowthWithoutWrap(was: nat, execution: nat, systemWeight: nat, baseWeight: int, delta: nat)
    requires ChargedFor(execution, systemWeight, baseWeight, delta) && was + execution * systemWeight < TWO64
    ensures GrownBy(was, (was + delta) % TWO64, execution * systemWeight, baseWeight)
  {
    var w := if baseWeight > 0 then baseWeight else 1;
    MulMono(1, w, delta);
    assert delta * w == w * delta;
  }

  /** Charging a task that is not queued leaves the queue ordered. */
  method ChargeTask(heap: TaskHeap, task: Task, execution: nat, systemWeight: nat)
    requires heap.Valid() && task !in heap.Contents()
    modifies task`vruntime
    ensures heap.Valid()
    ensures task.vruntime == (old(task.vruntime) + Charge(execution, systemWeight, task.baseWeight)) % TWO64
    ensures exists delta: nat ::
      && ChargedFor(execution, systemWeight, task.baseWeight, delta)
      && task.vruntime == (old(task.vruntime) + delta) % TWO64
    ensures old(task.vruntime) + execution * systemWeight < TWO64 ==>
      GrownBy(old(task.vruntime), task.vruntime, execution * systemWeight, task.baseWeight)
  {
    hide Keys, Ordered, Charge, ChargedFor, GrownBy;
    ghost var delta := Charge(execution, systemWeight, task.baseWeight);
    ChargeMeaning(execution, systemWeight, task.baseWeight, delta);
    if task.vruntime + execution * systemWeight < TWO64 {
      GrowthWithoutWrap(task.vruntime, execution, systemWeight, task.baseWeight, delta);
    }
    ghost var k := Keys(heap.Contents());
    task.vruntime := (task.vruntime + Charge(execution, systemWeight, task.baseWeight)) % TWO64;
    assert k == Keys(heap.Contents());
  }

  /** What the queue holds once the task that ran has been put back, if there was room for it. */
  ghost function Requeued(was: multiset<Task?>, prev: Task?, room: bool): multiset<Task?> {
    if prev != null && room then was + multiset{prev} else was
  }

  /** A task of least vruntime among those queued. */
  method TakeLeast(heap: TaskHeap) returns (best: Task?)
    requires heap.Valid()
    modifies heap`size, heap.nodes
    ensures heap.Valid() && (best == null <==> old(heap.size) == 0)
    ensures old(multiset(heap.Contents())) ==
            multiset(heap.Contents()) + (if best == null then multiset{} else multiset{best})
    ensures best != null ==>
      forall t: Task? :: t in old(multiset(heap.Contents())) && t != null ==> best.vruntime <= t.vruntime
  {
    hide Keys, Ordered;
    ghost var queued := heap.Contents();
    assert forall t: Task? :: t in multiset(queued) ==> t in queued;
    assert forall i :: 0 <= i < heap.size ==> queued[i] == heap.nodes[i];
    best := heap.ExtractMin();
  }

  /** `select_and_update_queue`: charge and requeue the task that ran, then take a task of least vruntime. */
  method SelectAndUpdate(heap: TaskHeap, prev: Task?, execution: nat, systemWeight: nat) returns (best: Task?)
    requires heap.Valid() && (prev != null ==> prev !in heap.Contents())
    modifies heap`size, heap.nodes, if prev != null then {prev} else {}
    ensures heap.Valid()
    ensures prev != null ==>
      prev.vruntime == (old(prev.vruntime) + Charge(execution, systemWeight, prev.baseWeight)) % TWO64
    ensures prev != null ==> exists delta: nat ::
      && ChargedFor(execution, systemWeight, prev.baseWeight, delta)
      && prev.vruntime == (old(prev.vruntime) + delta) % TWO64
    ensures prev != null && old(prev.vruntime) + execution * systemWeight < TWO64 ==>
      GrownBy(old(prev.vruntime), prev.vruntime, execution * systemWeight, prev.baseWeight)
    ensures best == null <==> old(heap.size) == 0 && (prev == null || heap.nodes.Length == 0)
    ensures var queued := Requeued(old(multiset(heap.Contents())), prev, old(heap.size) < heap.nodes.Length);
            && queued == multiset(heap.Contents()) + (if best == null then multiset{} else multiset{best})
            && (best != null ==> forall t: Task? :: t in queued && t != null ==> best.vruntime <= t.vruntime)
  {
    hide Keys, Ordered, Charge, ChargedFor, GrownBy;
    if prev != null {
      ChargeTask(heap, prev, execution, systemWeight);
      heap.Insert(prev);
    }
    best := TakeLeast(heap);
  }
}
