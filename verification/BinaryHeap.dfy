/**
 AK/BinaryHeap.h, IntrusiveBinaryHeap: a binary heap whose nodes record their own position
 and can be removed from anywhere.
 */
module BinaryHeap {
  import opened Wrappers

  // ----- the order -----

  /** What a Comparator has to be. */
  ghost predicate StrictWeakOrder<T(!new)>(less: (T, T) -> bool) {
    && (forall a :: !less(a, a))
    && (forall a, b, c :: less(a, b) && less(b, c) ==> less(a, c))
    && forall a, b, c :: !less(a, b) && !less(b, a) && !less(b, c) && !less(c, b) ==> !less(a, c) && !less(c, a)
  }

  /** "Not greater" is transitive. */
  lemma NotGreater<T(!new)>(less: (T, T) -> bool, a: T, b: T, c: T)
    requires StrictWeakOrder(less) && !less(b, a) && !less(c, b)
    ensures !less(c, a)
  {
  }

  // ----- nodes in heap order -----

  /** A node and the position it records for itself. */
  datatype Node<T> = Node(item: T, index: int)

  function Parent(i: nat): nat
    requires i > 0
  {
    (i - 1) / 2
  }

  ghost function Items<T>(nodes: seq<Node<T>>): (items: seq<T>)
    ensures |items| == |nodes| && forall i :: 0 <= i < |nodes| ==> items[i] == nodes[i].item
  {
    seq(|nodes|, i requires 0 <= i < |nodes| => nodes[i].item)
  }

  /** No child comes before its parent, for the parents from k on. */
  ghost predicate HeapFrom<T(!new)>(less: (T, T) -> bool, s: seq<T>, k: nat) {
    forall c: nat :: 0 < c < |s| && k <= Parent(c) ==> !less(s[c], s[Parent(c)])
  }

  /** As HeapFrom, except that the node at i may come after its children. */
  ghost predicate TooLow<T(!new)>(less: (T, T) -> bool, s: seq<T>, k: nat, i: nat) {
    && k <= i
    && (forall c: nat :: 0 < c < |s| && k <= Parent(c) && Parent(c) != i ==> !less(s[c], s[Parent(c)]))
    && forall c: nat :: 0 < c < |s| && Parent(c) == i && 0 < i && k <= Parent(i) ==> !less(s[c], s[Parent(i)])
  }

  /** A heap, except that the node at i may come before its parent. */
  ghost predicate TooHigh<T(!new)>(less: (T, T) -> bool, s: seq<T>, i: nat) {
    && i < |s|
    && (forall c: nat :: 0 < c < |s| && c != i ==> !less(s[c], s[Parent(c)]))
    && forall c: nat :: 0 < c < |s| && Parent(c) == i && 0 < i ==> !less(s[c], s[Parent(i)])
  }

  function Swapped<T>(s: seq<T>, i: nat, j: nat): (t: seq<T>)
    requires i < |s| && j < |s|
    ensures |t| == |s| && t[i] == s[j] && t[j] == s[i] && forall k :: 0 <= k < |s| && k != i && k != j ==> t[k] == s[k]
  {
    s[i := s[j]][j := s[i]]
  }

  lemma SwappedMultiset<T>(s: seq<T>, i: nat, j: nat)
    requires i < |s| && j < |s|
    ensures multiset(Swapped(s, i, j)) == multiset(s)
  {
  }

  /** One step of heapify_up. */
  lemma SwapUp<T(!new)>(less: (T, T) -> bool, s: seq<T>, i: nat)
    requires StrictWeakOrder(less) && TooHigh(less, s, i) && 0 < i && !less(s[Parent(i)], s[i])
    ensures TooHigh(less, Swapped(s, i, Parent(i)), Parent(i))
  {
    var p := Parent(i);
    var t := Swapped(s, i, p);
    forall c: nat | 0 < c < |t| && c != p ensures !less(t[c], t[Parent(c)]) {
      if Parent(c) == p && c != i {
        NotGreater(less, s[i], s[p], s[c]);
      }
    }
    forall c: nat | 0 < c < |t| && Parent(c) == p && 0 < p ensures !less(t[c], t[Parent(p)]) {
      if c != i {
        NotGreater(less, s[Parent(p)], s[p], s[c]);
      }
    }
  }

  /** One step of heapify_down, to a child that does not come after the other one. */
  lemma SwapDown<T(!new)>(less: (T, T) -> bool, s: seq<T>, k: nat, i: nat, child: nat)
    requires StrictWeakOrder(less) && TooLow(less, s, k, i) && 0 < child < |s| && Parent(child) == i
    requires !less(s[i], s[child])
    requires forall c: nat :: 0 < c < |s| && Parent(c) == i ==> !less(s[c], s[child])
    ensures TooLow(less, Swapped(s, i, child), k, child)
  {
  }

  /** Nothing to do when the node comes before its smaller child. */
  lemma DownDone<T(!new)>(less: (T, T) -> bool, s: seq<T>, k: nat, i: nat, child: nat)
    requires StrictWeakOrder(less) && TooLow(less, s, k, i) && 0 < child < |s| && Parent(child) == i
    requires less(s[i], s[child])
    requires forall c: nat :: 0 < c < |s| && Parent(c) == i ==> !less(s[c], s[child])
    ensures HeapFrom(less, s, k)
  {
  }

  /** One step of pop's way to the root: the parent moves down unconditionally. */
  lemma LiftUp<T(!new)>(less: (T, T) -> bool, s: seq<T>, i: nat)
    requires StrictWeakOrder(less) && TooLow(less, s, 0, i) && 0 < i < |s|
    ensures TooLow(less, Swapped(s, i, Parent(i)), 0, Parent(i))
  {
  }

  lemma HeapIsTooLow<T(!new)>(less: (T, T) -> bool, s: seq<T>, i: nat)
    requires StrictWeakOrder(less) && HeapFrom(less, s, 0)
    ensures i < |s| ==> TooLow(less, s, 0, i)
  {
  }

  /** The last node takes the place of the first, which leaves. */
  lemma TakeLast<T(!new)>(less: (T, T) -> bool, s: seq<T>)
    requires s != [] && TooLow(less, s, 0, 0)
    ensures var t := Swapped(s, 0, |s| - 1);
            TooLow(less, t[..|s| - 1], 0, 0) && multiset(t[..|s| - 1]) == multiset(s) - multiset{s[0]}
  {
    var n := |s| - 1;
    var t := Swapped(s, 0, n);
    SwappedMultiset(s, 0, n);
    assert t == t[..n] + [t[n]];
  }

  /** The first node of a heap comes before no other. */
  lemma {:induction false} RootIsLeast<T(!new)>(less: (T, T) -> bool, s: seq<T>, i: nat)
    requires StrictWeakOrder(less) && HeapFrom(less, s, 0) && i < |s|
    ensures !less(s[i], s[0])
  {
    if i > 0 {
      RootIsLeast(less, s, Parent(i));
      NotGreater(less, s[0], s[Parent(i)], s[i]);
    }
  }

  // ----- sinking, as a function of the items -----

  function SmallerChildOf<T>(less: (T, T) -> bool, s: seq<T>, i: nat): (child: nat)
    requires i * 2 + 1 < |s|
    ensures i < child < |s| && Parent(child) == i
  {
    if i * 2 + 2 < |s| && less(s[i * 2 + 2], s[i * 2 + 1]) then i * 2 + 2 else i * 2 + 1
  }

  /** The items after heapify_down at i, and the positions it writes. */
  function Sink<T>(less: (T, T) -> bool, s: seq<T>, i: nat): (r: (seq<T>, set<nat>))
    ensures |r.0| == |s|
    decreases |s| - i
  {
    if i * 2 + 1 >= |s| then
      (s, {})
    else
      var child := SmallerChildOf(less, s, i);
      if less(s[i], s[child]) then
        (s, {})
      else
        var r := Sink(less, Swapped(s, i, child), child);
        (r.0, {i, child} + r.1)
  }

  /** The items after sinking every inner node from i on, the last one first, and the positions written. */
  function Build<T>(less: (T, T) -> bool, s: seq<T>, i: nat): (r: (seq<T>, set<nat>))
    ensures |r.0| == |s|
    decreases |s| - i
  {
    if i >= |s| / 2 then
      (s, {})
    else
      var r := Build(less, s, i + 1);
      var t := Sink(less, r.0, i);
      (t.0, r.1 + t.1)
  }

  lemma SinkStep<T>(less: (T, T) -> bool, s: seq<T>, i: nat, child: nat)
    requires i * 2 + 1 < |s| && child == SmallerChildOf(less, s, i) && !less(s[i], s[child])
    ensures Sink(less, s, i).0 == Sink(less, Swapped(s, i, child), child).0
    ensures Sink(less, s, i).1 == {i, child} + Sink(less, Swapped(s, i, child), child).1
  {
  }

  lemma SinkEnd<T>(less: (T, T) -> bool, s: seq<T>, i: nat)
    requires i * 2 + 1 < |s| ==> less(s[i], s[SmallerChildOf(less, s, i)])
    ensures Sink(less, s, i) == (s, {})
  {
  }

  lemma BuildStep<T>(less: (T, T) -> bool, s: seq<T>, i: nat)
    requires i < |s| / 2
    ensures Build(less, s, i).0 == Sink(less, Build(less, s, i + 1).0, i).0
    ensures Build(less, s, i).1 == Build(less, s, i + 1).1 + Sink(less, Build(less, s, i + 1).0, i).1
  {
  }

  lemma BuildEnd<T>(less: (T, T) -> bool, s: seq<T>)
    ensures Build(less, s, |s| / 2) == (s, {})
  {
  }

  /** Items already in strict heap order are left alone. */
  lemma {:induction false} BuildOrdered<T(!new)>(less: (T, T) -> bool, s: seq<T>, i: nat)
    requires forall c: nat :: 0 < c < |s| ==> less(s[Parent(c)], s[c])
    ensures Build(less, s, i).0 == s && Build(less, s, i).1 == {}
    decreases |s| - i
  {
    if i < |s| / 2 {
      BuildOrdered(less, s, i + 1);
      SinkEnd(less, s, i);
      BuildStep(less, s, i);
    }
  }

  /** Nothing is written exactly when the items are in strict heap order; equal items are exchanged. */
  lemma BuildWritesNothing<T(!new)>(less: (T, T) -> bool, s: seq<T>)
    requires StrictWeakOrder(less)
    ensures Build(less, s, 0).1 == {} <==> forall c: nat :: 0 < c < |s| ==> less(s[Parent(c)], s[c])
  {
    if forall c: nat :: 0 < c < |s| ==> less(s[Parent(c)], s[c]) {
      BuildOrdered(less, s, 0);
    } else {
      var c: nat :| 0 < c < |s| && !less(s[Parent(c)], s[c]);
      BuildWrites(less, s, 0, c);
    }
  }

  lemma {:induction false} BuildWrites<T(!new)>(less: (T, T) -> bool, s: seq<T>, i: nat, c: nat)
    requires StrictWeakOrder(less) && 0 < c < |s| && i <= Parent(c) && !less(s[Parent(c)], s[c])
    ensures Build(less, s, i).1 != {}
    decreases |s| - i
  {
    BuildStep(less, s, i);
    var r := Build(less, s, i + 1);
    if i < Parent(c) {
      BuildWrites(less, s, i + 1, c);
    } else if r.1 == {} {
      BuildUnwritten(less, s, i + 1);
      var child := SmallerChildOf(less, s, i);
      SmallerChild(less, s, i, child);
      SinkStep(less, s, i, child);
    }
  }

  lemma {:induction false} BuildUnwritten<T(!new)>(less: (T, T) -> bool, s: seq<T>, i: nat)
    requires Build(less, s, i).1 == {}
    ensures Build(less, s, i).0 == s
    decreases |s| - i
  {
    if i < |s| / 2 {
      BuildStep(less, s, i);
      BuildUnwritten(less, s, i + 1);
    }
  }

  /** The written positions record themselves, the others hold the nodes they held. */
  ghost predicate Recorded<T>(before: seq<Node<T>>, after: seq<Node<T>>, written: set<nat>) {
    && |before| == |after|
    && forall k: nat :: k < |after| ==> if k in written then after[k].index == k else after[k] == before[k]
  }

  lemma RecordedNone<T>(nodes: seq<Node<T>>)
    ensures Recorded(nodes, nodes, {})
  {
  }

  lemma RecordedThen<T>(a: seq<Node<T>>, b: seq<Node<T>>, c: seq<Node<T>>, v: set<nat>, w: set<nat>)
    requires Recorded(a, b, v) && Recorded(b, c, w)
    ensures Recorded(a, c, v + w)
  {
  }

  lemma RecordedMeaning<T>(a: seq<Node<T>>, b: seq<Node<T>>, w: set<nat>)
    requires Recorded(a, b, w)
    ensures |a| == |b| && forall k :: 0 <= k < |b| ==> b[k].index == k || b[k] == a[k]
    ensures (forall k :: 0 <= k < |b| ==> b[k].index == k) <==>
            forall k :: 0 <= k < |a| && k !in w ==> a[k].index == k
  {
    if forall k :: 0 <= k < |b| ==> b[k].index == k {
      forall k | 0 <= k < |a| && k !in w ensures a[k].index == k {
        assert b[k] == a[k];
      }
    }
  }

  /** No item comes before an earlier one. */
  ghost predicate Sorted<T>(less: (T, T) -> bool, s: seq<T>) {
    forall i, j :: 0 <= i < j < |s| ==> !less(s[j], s[i])
  }

  // ----- runs on a bag of items -----

  /** Removal at a position, or at the position that a node with the given item records. */
  datatype Op<T> = Insert(node: Node<T>) | PopMin | Pop(at: nat) | Remove(item: T)

  /** The source stops at a VERIFY when the popped position does not exist. */
  predicate Stops<T>(op: Op<T>, size: nat) {
    match op
    case PopMin => size == 0
    case Pop(at) => at >= size
    case _ => false
  }

  /** The replies an operation may give on a bag of items. */
  ghost predicate Allowed<T(!new)>(less: (T, T) -> bool, bag: multiset<T>, op: Op<T>, reply: Option<T>) {
    match op
    case Insert(_) => reply.None?
    case PopMin => reply.Some? && reply.value in bag && forall x :: x in bag ==> !less(x, reply.value)
    case Pop(_) => reply.Some? && reply.value in bag
    case Remove(item) => reply == if item in bag then Some(item) else None
  }

  /** The bag after operations with these replies. */
  ghost function Bag<T>(ops: seq<Op<T>>, replies: seq<Option<T>>): (bag: multiset<T>)
    requires |ops| == |replies|
  {
    if ops == [] then
      multiset{}
    else
      var n := |ops| - 1;
      BagStep(Bag(ops[..n], replies[..n]), ops[n], replies[n])
  }

  ghost function BagStep<T>(bag: multiset<T>, op: Op<T>, reply: Option<T>): (next: multiset<T>) {
    if op.Insert? then bag + multiset{op.node.item} else if reply.Some? then bag - multiset{reply.value} else bag
  }

  /** Every reply is allowed on the bag that the earlier replies leave, and no operation stops. */
  ghost predicate Plausible<T(!new)>(less: (T, T) -> bool, ops: seq<Op<T>>, replies: seq<Option<T>>)
    requires |ops| == |replies|
  {
    ops == [] ||
    var n := |ops| - 1;
    var bag := Bag(ops[..n], replies[..n]);
    Plausible(less, ops[..n], replies[..n]) && Allowed(less, bag, ops[n], replies[n]) && !Stops(ops[n], |bag|)
  }

  lemma RunStart<T(!new)>(less: (T, T) -> bool, ops: seq<Op<T>>)
    ensures Plausible(less, ops[..0], []) && Bag(ops[..0], []) == multiset{}
  {
  }

  lemma RunStep<T(!new)>(less: (T, T) -> bool, ops: seq<Op<T>>, n: nat, replies: seq<Option<T>>, reply: Option<T>)
    requires n < |ops| && |replies| == n && Plausible(less, ops[..n], replies)
    requires var bag := Bag(ops[..n], replies); Allowed(less, bag, ops[n], reply) && !Stops(ops[n], |bag|)
    ensures Plausible(less, ops[..n + 1], replies + [reply])
    ensures Bag(ops[..n + 1], replies + [reply]) == BagStep(Bag(ops[..n], replies), ops[n], reply)
  {
    assert ops[..n + 1][..n] == ops[..n] && (replies + [reply])[..n] == replies;
  }

  // ----- the heap -----

  class IntrusiveBinaryHeap<T(!new, ==)> {
    const less: (T, T) -> bool
    var nodes: seq<Node<T>>

    ghost predicate Valid()
      reads this
    {
      StrictWeakOrder(less) && HeapFrom(less, Items(nodes), 0)
    }

    /** Every node records where it is. */
    ghost predicate Indexed()
      reads this
    {
      forall i :: 0 <= i < |nodes| ==> nodes[i].index == i
    }

    constructor (less: (T, T) -> bool)
      requires StrictWeakOrder(less)
      ensures Valid() && Indexed() && nodes == [] && this.less == less
    {
      this.less := less;
      nodes := [];
    }

    method SwapIndices(i: nat, j: nat)
      requires i < |nodes| && j < |nodes|
      modifies this
      ensures Items(nodes) == Swapped(old(Items(nodes)), i, j) && |nodes| == |old(nodes)|
      ensures nodes[i].index == i && nodes[j].index == j
      ensures forall k :: 0 <= k < |nodes| && k != i && k != j ==> nodes[k] == old(nodes)[k]
      ensures Recorded(old(nodes), nodes, {i, j})
    {
      nodes := nodes[i := nodes[j]][j := nodes[i]];
      nodes := nodes[i := nodes[i].(index := i)];
      nodes := nodes[j := nodes[j].(index := j)];
      assert Items(nodes) == Swapped(old(Items(nodes)), i, j);
    }

    /** The vector constructor: heapify_down for every inner node, from the last one. */
    constructor FromNodes(less: (T, T) -> bool, nodes: seq<Node<T>>)
      requires StrictWeakOrder(less)
      ensures Valid() && this.less == less && multiset(Items(this.nodes)) == multiset(Items(nodes))
      ensures |this.nodes| == |nodes|
      ensures forall k :: 0 <= k < |nodes| ==> this.nodes[k].index == k || this.nodes[k] == nodes[k]
      ensures Items(this.nodes) == Build(less, Items(nodes), 0).0
      ensures Indexed() <==>
              forall k :: 0 <= k < |nodes| && k !in Build(less, Items(nodes), 0).1 ==> nodes[k].index == k
      ensures |nodes| <= 1 ==> this.nodes == nodes
    {
      this.less := less;
      this.nodes := nodes;
      new;
      hide StrictWeakOrder, Recorded, Build, Sink;
      ghost var s := Items(nodes);
      BuildEnd(less, s);
      RecordedNone(nodes);
      for i := |nodes| / 2 downto 0
        invariant |this.nodes| == |nodes| && HeapFrom(less, Items(this.nodes), i)
        invariant multiset(Items(this.nodes)) == multiset(s)
        invariant Items(this.nodes) == Build(less, s, i).0 && Recorded(nodes, this.nodes, Build(less, s, i).1)
        invariant |nodes| <= 1 ==> this.nodes == nodes
      {
        ghost var before, r := this.nodes, Build(less, s, i + 1);
        BuildStep(less, s, i);
        HeapifyDown(i, i);
        RecordedThen(nodes, before, this.nodes, r.1, Sink(less, r.0, i).1);
      }
      RecordedMeaning(nodes, this.nodes, Build(less, s, 0).1);
    }

    method HeapifyUp(from: nat)
      requires StrictWeakOrder(less) && TooHigh(less, Items(nodes), from)
      modifies this
      ensures Valid() && multiset(Items(nodes)) == old(multiset(Items(nodes)))
      ensures old(Indexed()) ==> Indexed()
    {
      hide StrictWeakOrder, TooHigh;
      var i: nat := from;
      HighBounds(less, Items(nodes), i);
      while i != 0
        invariant i < |nodes| && TooHigh(less, Items(nodes), i) && multiset(Items(nodes)) == old(multiset(Items(nodes)))
        invariant old(Indexed()) ==> Indexed()
      {
        var parent := Parent(i);
        if less(nodes[parent].item, nodes[i].item) {
          break;
        }
        SwapUp(less, Items(nodes), i);
        SwappedMultiset(Items(nodes), i, parent);
        SwapIndices(i, parent);
        i := parent;
      }
      UpDone(less, Items(nodes), i);
    }

    method HeapifyDown(from: nat, ghost k: nat)
      requires StrictWeakOrder(less) && TooLow(less, Items(nodes), k, from)
      modifies this
      ensures HeapFrom(less, Items(nodes), k) && |nodes| == |old(nodes)|
      ensures multiset(Items(nodes)) == old(multiset(Items(nodes)))
      ensures Items(nodes) == Sink(less, old(Items(nodes)), from).0
      ensures Recorded(old(nodes), nodes, Sink(less, old(Items(nodes)), from).1)
    {
      hide StrictWeakOrder, TooLow, HeapFrom, Sink, Recorded;
      var i: nat := from;
      ghost var s, written: set<nat> := Items(nodes), {};
      RecordedNone(nodes);
      while i * 2 + 1 < |nodes|
        invariant |nodes| == |old(nodes)| && TooLow(less, Items(nodes), k, i)
        invariant multiset(Items(nodes)) == old(multiset(Items(nodes)))
        invariant Recorded(old(nodes), nodes, written)
        invariant Sink(less, s, from).0 == Sink(less, Items(nodes), i).0
        invariant Sink(less, s, from).1 == written + Sink(less, Items(nodes), i).1
        decreases |nodes| - i
      {
        var child := i * 2 + 1;
        var other := i * 2 + 2;
        if other < |nodes| && less(nodes[other].item, nodes[child].item) {
          child := other;
        }
        SmallerChild(less, Items(nodes), i, child);
        if less(nodes[i].item, nodes[child].item) {
          DownDone(less, Items(nodes), k, i, child);
          SinkEnd(less, Items(nodes), i);
          return;
        }
        SwapDown(less, Items(nodes), k, i, child);
        SwappedMultiset(Items(nodes), i, child);
        SinkStep(less, Items(nodes), i, child);
        ghost var before := nodes;
        SwapIndices(i, child);
        RecordedThen(old(nodes), before, nodes, written, {i, child});
        written := written + {i, child};
        i := child;
      }
      NoChildren(less, Items(nodes), k, i);
      SinkEnd(less, Items(nodes), i);
    }

    method Insert(node: Node<T>)
      requires Valid()
      modifies this
      ensures Valid() && multiset(Items(nodes)) == old(multiset(Items(nodes))) + multiset{node.item}
      ensures old(Indexed()) ==> Indexed()
    {
      nodes := nodes + [node];
      var last := |nodes| - 1;
      nodes := nodes[last := nodes[last].(index := last)];
      assert Items(nodes) == old(Items(nodes)) + [node.item];
      HeapifyUp(last);
    }

    /** Removal from anywhere: up to the root, out at the end, and the replacement sinks. */
    method Pop(at: nat) returns (r: Node<T>)
      requires Valid() && at < |nodes|
      modifies this
      ensures Valid() && r.item == old(nodes)[at].item && |nodes| == |old(nodes)| - 1 && r.index == |nodes|
      ensures multiset(Items(nodes)) == old(multiset(Items(nodes))) - multiset{r.item}
      ensures old(Indexed()) ==> Indexed()
    {
      hide StrictWeakOrder, TooLow, HeapFrom;
      HeapIsTooLow(less, Items(nodes), at);
      LiftToRoot(at);
      r := RemoveRoot();
    }

    method LiftToRoot(at: nat)
      requires StrictWeakOrder(less) && at < |nodes| && TooLow(less, Items(nodes), 0, at)
      modifies this
      ensures |nodes| == |old(nodes)| && TooLow(less, Items(nodes), 0, 0) && nodes[0].item == old(nodes)[at].item
      ensures multiset(Items(nodes)) == old(multiset(Items(nodes))) && (old(Indexed()) ==> Indexed())
    {
      hide StrictWeakOrder, TooLow;
      var i: nat := at;
      while i != 0
        invariant i < |nodes| == |old(nodes)| && TooLow(less, Items(nodes), 0, i)
        invariant multiset(Items(nodes)) == old(multiset(Items(nodes)))
        invariant nodes[i].item == old(nodes)[at].item && (old(Indexed()) ==> Indexed())
      {
        LiftUp(less, Items(nodes), i);
        SwappedMultiset(Items(nodes), i, Parent(i));
        SwapIndices(i, Parent(i));
        i := Parent(i);
      }
    }

    method RemoveRoot() returns (r: Node<T>)
      requires StrictWeakOrder(less) && nodes != [] && TooLow(less, Items(nodes), 0, 0)
      modifies this
      ensures Valid() && r.item == old(nodes)[0].item && |nodes| == |old(nodes)| - 1 && r.index == |nodes|
      ensures multiset(Items(nodes)) == old(multiset(Items(nodes))) - multiset{r.item}
      ensures old(Indexed()) ==> Indexed()
    {
      hide StrictWeakOrder, TooLow, HeapFrom;
      var last := |nodes| - 1;
      TakeLast(less, Items(nodes));
      SwapIndices(0, last);
      r := nodes[last];
      assert Items(nodes)[..last] == Items(nodes[..last]);
      nodes := nodes[..last];
      HeapifyDown(0, 0);
    }

    /** pop_min takes a node that comes after no other. */
    method PopMin() returns (r: Node<T>)
      requires Valid() && nodes != []
      modifies this
      ensures Valid() && r.item in old(Items(nodes)) && forall x :: x in old(Items(nodes)) ==> !less(x, r.item)
      ensures multiset(Items(nodes)) == old(multiset(Items(nodes))) - multiset{r.item}
      ensures old(Indexed()) ==> Indexed()
    {
      hide StrictWeakOrder, HeapFrom;
      forall i | 0 <= i < |nodes| ensures !less(Items(nodes)[i], nodes[0].item) {
        RootIsLeast(less, Items(nodes), i);
      }
      r := Pop(0);
    }

    /** One operation of a run. */
    method Apply(op: Op<T>) returns (reply: Option<T>)
      requires Valid() && Indexed() && !Stops(op, |nodes|)
      modifies this
      ensures Valid() && Indexed() && Allowed(less, old(multiset(Items(nodes))), op, reply)
      ensures multiset(Items(nodes)) == BagStep(old(multiset(Items(nodes))), op, reply)
    {
      hide StrictWeakOrder, HeapFrom;
      match op
      case Insert(node) =>
        Insert(node);
        reply := None;
      case PopMin =>
        var r := PopMin();
        reply := Some(r.item);
      case Pop(at) =>
        var r := Pop(at);
        assert r.item == old(Items(nodes))[at];
        reply := Some(r.item);
      case Remove(item) =>
        var at := PositionOf(item);
        if at < |nodes| {
          assert item == Items(nodes)[at];
          var r := Pop(nodes[at].index);
          reply := Some(r.item);
        } else {
          reply := None;
        }
    }

    /** Some position that holds the item, or the size. */
    method PositionOf(item: T) returns (at: nat)
      ensures at <= |nodes| && (at < |nodes| ==> nodes[at].item == item)
      ensures at == |nodes| ==> item !in Items(nodes)
    {
      at := 0;
      while at < |nodes| && nodes[at].item != item
        invariant at <= |nodes| && forall i :: 0 <= i < at ==> nodes[i].item != item
      {
        at := at + 1;
      }
    }

    /** Takes every node out, a least one each time. */
    method Drain() returns (sorted: seq<T>)
      requires Valid()
      modifies this
      ensures nodes == [] && multiset(sorted) == old(multiset(Items(nodes))) && Sorted(less, sorted)
    {
      hide StrictWeakOrder, HeapFrom;
      sorted := [];
      while nodes != []
        invariant Valid() && multiset(sorted) + multiset(Items(nodes)) == old(multiset(Items(nodes)))
        invariant Sorted(less, sorted)
        invariant forall x, y :: x in sorted && y in multiset(Items(nodes)) ==> !less(y, x)
        decreases |multiset(Items(nodes))|
      {
        var r := PopMin();
        sorted := sorted + [r.item];
      }
    }
  }

  lemma HighBounds<T(!new)>(less: (T, T) -> bool, s: seq<T>, i: nat)
    requires TooHigh(less, s, i)
    ensures i < |s|
  {
  }

  lemma UpDone<T(!new)>(less: (T, T) -> bool, s: seq<T>, i: nat)
    requires StrictWeakOrder(less) && TooHigh(less, s, i) && (i == 0 || less(s[Parent(i)], s[i]))
    ensures HeapFrom(less, s, 0)
  {
  }

  lemma NoChildren<T(!new)>(less: (T, T) -> bool, s: seq<T>, k: nat, i: nat)
    requires TooLow(less, s, k, i) && i * 2 + 1 >= |s|
    ensures HeapFrom(less, s, k)
  {
  }

  lemma SmallerChild<T(!new)>(less: (T, T) -> bool, s: seq<T>, i: nat, child: nat)
    requires StrictWeakOrder(less) && i * 2 + 1 < |s|
    requires child == if i * 2 + 2 < |s| && less(s[i * 2 + 2], s[i * 2 + 1]) then i * 2 + 2 else i * 2 + 1
    ensures Parent(child) == i && forall c: nat :: 0 < c < |s| && Parent(c) == i ==> !less(s[c], s[child])
  {
  }

  /** The positions 1 and 0 recorded by the items 1 and 2 stay: nothing is out of order, so nothing is written. */
  method UntouchedExample() returns (heap: IntrusiveBinaryHeap<int>)
    ensures fresh(heap) && heap.Valid() && !heap.Indexed()
  {
    var less := (a: int, b: int) => a < b;
    var nodes := [Node(1, 1), Node(2, 0)];
    ghost var items := Items(nodes);
    assert Build(less, items, 0).1 == {} by { BuildOrdered(less, items, 0); }
    heap := new IntrusiveBinaryHeap<int>.FromNodes(less, nodes);
    assert nodes[0].index != 0;
  }

  // ----- whole runs -----

  /** Any run from an empty heap acts as on a bag, up to the first position that does not exist. */
  method Run<T(!new, ==)>(less: (T, T) -> bool, ops: seq<Op<T>>)
    returns (heap: IntrusiveBinaryHeap<T>, replies: seq<Option<T>>)
    requires StrictWeakOrder(less)
    ensures fresh(heap) && heap.less == less && heap.Valid() && heap.Indexed()
    ensures |replies| <= |ops| && Plausible(less, ops[..|replies|], replies)
    ensures multiset(Items(heap.nodes)) == Bag(ops[..|replies|], replies)
    ensures |replies| < |ops| ==>
              var op := ops[|replies|]; (op.PopMin? && heap.nodes == []) || (op.Pop? && op.at >= |heap.nodes|)
  {
    hide StrictWeakOrder, HeapFrom, Plausible, Allowed, Bag, BagStep;
    heap := new IntrusiveBinaryHeap<T>(less);
    replies := [];
    RunStart(less, ops);
    for n := 0 to |ops|
      invariant fresh(heap) && heap.less == less && heap.Valid() && heap.Indexed()
      invariant |replies| == n && Plausible(less, ops[..n], replies)
      invariant multiset(Items(heap.nodes)) == Bag(ops[..n], replies)
    {
      if Stops(ops[n], |heap.nodes|) {
        return;
      }
      var reply := heap.Apply(ops[n]);
      RunStep(less, ops, n, replies, reply);
      replies := replies + [reply];
    }
  }

  ghost function Inserted<T>(ops: seq<Op<T>>): (bag: multiset<T>) {
    if ops == [] then
      multiset{}
    else
      var n := |ops| - 1;
      Inserted(ops[..n]) + if ops[n].Insert? then multiset{ops[n].node.item} else multiset{}
  }

  ghost function Taken<T>(replies: seq<Option<T>>): (bag: multiset<T>) {
    if replies == [] then
      multiset{}
    else
      var n := |replies| - 1;
      Taken(replies[..n]) + if replies[n].Some? then multiset{replies[n].value} else multiset{}
  }

  /** What was put in is what was taken out and what is left. */
  lemma {:induction false} BagConserved<T(!new)>(less: (T, T) -> bool, ops: seq<Op<T>>, replies: seq<Option<T>>)
    requires |ops| == |replies| && Plausible(less, ops, replies)
    ensures Inserted(ops) == Bag(ops, replies) + Taken(replies)
  {
    if ops != [] {
      var n := |ops| - 1;
      BagConserved(less, ops[..n], replies[..n]);
    }
  }
}
