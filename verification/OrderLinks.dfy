/**
 The insertion-order list that an ordered AK/HashTable.h threads through its buckets:
 previous/next references per bucket plus head and tail.  A reference is a bucket
 index, or -1 for none; buckets are moved while the list refers to them.
 */
module OrderLinks {

  datatype Links = Links(prev: seq<int>, next: seq<int>, head: int, tail: int) {
    predicate IsRef(r: int) { -1 <= r < |prev| }

    predicate IsBucket(r: int) { 0 <= r < |prev| }

    /** Every stored reference is null or a bucket. */
    ghost predicate WellFormed() {
      && |prev| == |next| && IsRef(head) && IsRef(tail)
      && (forall i :: 0 <= i < |prev| ==> IsRef(prev[i]))
      && (forall i :: 0 <= i < |next| ==> IsRef(next[i]))
    }
  }

  /** The bucket holding the j-th key of the order, or -1 past either end. */
  function RefAt<K>(order: seq<K>, where: map<K, nat>, j: int): int
    requires forall k :: k in order ==> k in where
  {
    if 0 <= j < |order| then where[order[j]] else -1
  }

  ghost predicate Distinct<K>(s: seq<K>) {
    forall i, j :: 0 <= i < j < |s| ==> s[i] != s[j]
  }

  ghost predicate Injective<K>(where: map<K, nat>) {
    forall k, k' :: k in where && k' in where && where[k] == where[k'] ==> k == k'
  }

  /** Bucket of the j-th key refers to its neighbours in the order. */
  ghost predicate LinkedAt<K>(l: Links, order: seq<K>, where: map<K, nat>, j: nat)
    requires j < |order| && forall k :: k in order ==> k in where
  {
    var r := where[order[j]];
    r < |l.prev| && r < |l.next| && l.prev[r] == RefAt(order, where, j - 1) && l.next[r] == RefAt(order, where, j + 1)
  }

  /** The list enumerates exactly the keys of `where`, in the given order. */
  ghost predicate Linked<K>(l: Links, order: seq<K>, where: map<K, nat>) {
    && l.WellFormed()
    && Distinct(order) && Injective(where)
    && (forall k :: k in order ==> k in where)
    && (forall k :: k in where ==> k in order && where[k] < |l.prev|)
    && (forall j :: 0 <= j < |order| ==> LinkedAt(l, order, where, j))
    && l.head == RefAt(order, where, 0)
    && l.tail == RefAt(order, where, |order| - 1)
  }

  function SetPrev(l: Links, r: int, value: int): (l': Links)
    requires l.WellFormed() && l.IsBucket(r) && l.IsRef(value)
    ensures l'.WellFormed() && |l'.prev| == |l.prev|
  {
    l.(prev := l.prev[r := value])
  }

  function SetNext(l: Links, r: int, value: int): (l': Links)
    requires l.WellFormed() && l.IsBucket(r) && l.IsRef(value)
    ensures l'.WellFormed() && |l'.prev| == |l.prev|
  {
    l.(next := l.next[r := value])
  }

  /** Copy the references of bucket `from` into bucket `to`. */
  function Copied(l: Links, from: int, to: int): (l': Links)
    requires l.WellFormed() && l.IsBucket(from) && l.IsBucket(to)
    ensures l'.WellFormed() && |l'.prev| == |l.prev|
  {
    SetNext(SetPrev(l, to, l.prev[from]), to, l.next[from])
  }

  /** Exchange the references of two buckets. */
  function Exchanged(l: Links, a: int, b: int): (l': Links)
    requires l.WellFormed() && l.IsBucket(a) && l.IsBucket(b)
    ensures l'.WellFormed() && |l'.prev| == |l.prev|
  {
    l.(prev := l.prev[a := l.prev[b]][b := l.prev[a]], next := l.next[a := l.next[b]][b := l.next[a]])
  }

  function Cleared(l: Links, r: int): (l': Links)
    requires l.WellFormed() && l.IsBucket(r)
    ensures l'.WellFormed() && |l'.prev| == |l.prev|
  {
    SetNext(SetPrev(l, r, -1), r, -1)
  }

  // ----- update_collection_for_new_bucket -----

  function Appended(l: Links, r: int): (l': Links)
    requires l.WellFormed() && l.IsBucket(r) && (l.head != -1 ==> l.tail != -1)
    ensures l'.WellFormed() && |l'.prev| == |l.prev|
  {
    if l.head == -1 then l.(head := r, tail := r)
    else SetNext(SetPrev(l, r, l.tail), l.tail, r).(tail := r)
  }

  /** A new bucket goes to the end of the order. */
  lemma AppendedLinked<K>(l: Links, order: seq<K>, where: map<K, nat>, k: K, r: nat)
    requires Linked(l, order, where) && k !in where && l.IsBucket(r)
    requires forall k' :: k' in where ==> where[k'] != r
    requires l.next[r] == -1 && (order == [] ==> l.prev[r] == -1)
    ensures l.head != -1 ==> l.tail != -1
    ensures Linked(Appended(l, r), order + [k], where[k := r])
  {
    var order', where' := order + [k], where[k := r];
    AppendedKeys(order, where, k, r);
    assert order == [] || l.head == where[order[0]];
    assert order'[|order|] == k && (order != [] ==> order'[0] == order[0]);
    hide Distinct, Injective, LinkedAt;
    forall j | 0 <= j < |order'| ensures LinkedAt(Appended(l, r), order', where', j) {
      AppendedAt(l, order, where, k, r, j);
    }
  }

  lemma AppendedAt<K>(l: Links, order: seq<K>, where: map<K, nat>, k: K, r: nat, j: nat)
    requires Linked(l, order, where) && k !in where && l.IsBucket(r)
    requires forall k' :: k' in where ==> where[k'] != r
    requires l.next[r] == -1 && (order == [] ==> l.prev[r] == -1) && j <= |order|
    requires forall k' :: k' in order + [k] ==> k' in where[k := r]
    ensures l.head != -1 ==> l.tail != -1
    ensures LinkedAt(Appended(l, r), order + [k], where[k := r], j)
  {
    var order' := order + [k];
    assert forall i :: 0 <= i < |order| ==> order'[i] == order[i] && order[i] != k;
    assert order == [] || l.head == where[order[0]];
    if j < |order| { assert LinkedAt(l, order, where, j); }
    if order != [] { assert LinkedAt(l, order, where, |order| - 1); }
  }

  lemma AppendedKeys<K>(order: seq<K>, where: map<K, nat>, k: K, r: nat)
    requires Distinct(order) && Injective(where) && k !in where
    requires (forall k' :: k' in order ==> k' in where) && (forall k' :: k' in where ==> k' in order && where[k'] != r)
    ensures Distinct(order + [k]) && Injective(where[k := r])
    ensures forall k' :: k' in order + [k] ==> k' in where[k := r]
    ensures forall k' :: k' in where[k := r] ==> k' in order + [k]
  {
    var order' := order + [k];
    assert order'[|order|] == k;
    forall i | 0 <= i < |order| ensures order'[i] == order[i] && order[i] != k {
      assert order[i] in order;
    }
  }

  // ----- update_collection_for_swapped_buckets -----

  function Renamed(r: int, left: int, right: int): int {
    if r == left then right else if r == right then left else r
  }

  function FixLeft(l: Links, left: int, right: int): (l': Links)
    requires l.WellFormed() && l.IsBucket(left) && l.IsBucket(right)
    ensures l'.WellFormed() && |l'.prev| == |l.prev|
  {
    var l1 := if l.prev[left] == left then SetPrev(l, left, right) else l;
    var l2 := if l.prev[left] != -1 then SetNext(l1, l1.prev[left], left) else l;
    var l3 := if l2.next[left] == left then SetNext(l2, left, right) else l2;
    if l2.next[left] != -1 then SetPrev(l3, l3.next[left], left) else l2
  }

  function FixRight(l: Links, left: int, right: int): (l': Links)
    requires l.WellFormed() && l.IsBucket(left) && l.IsBucket(right)
    ensures l'.WellFormed() && |l'.prev| == |l.prev|
  {
    var l1 := if l.prev[right] != -1 && l.prev[right] != left then SetNext(l, l.prev[right], right) else l;
    if l1.next[right] != -1 && l1.next[right] != left then SetPrev(l1, l1.next[right], right) else l1
  }

  function Swapped(l: Links, left: int, right: int): (l': Links)
    requires l.WellFormed() && l.IsBucket(left) && l.IsBucket(right)
    ensures l'.WellFormed() && |l'.prev| == |l.prev|
  {
    FixRight(FixLeft(l.(head := Renamed(l.head, left, right), tail := Renamed(l.tail, left, right)), left, right),
             left, right)
  }

  /** The references around bucket `r` agree with each other. */
  ghost predicate Near(l: Links, r: int) {
    && l.WellFormed() && l.IsBucket(r) && l.prev[r] != r && l.next[r] != r
    && (l.prev[r] == l.next[r] ==> l.prev[r] == -1)
    && (l.prev[r] != -1 ==> l.next[l.prev[r]] == r)
    && (l.next[r] != -1 ==> l.prev[l.next[r]] == r)
  }

  /** Seen from bucket `r`, l' is l with left and right renamed into each other. */
  ghost predicate RenamedAt(l: Links, l': Links, left: int, right: int, r: int)
    requires l.WellFormed() && l'.WellFormed() && |l'.prev| == |l.prev| && l.IsBucket(r) && l.IsBucket(left)
    requires l.IsBucket(right)
  {
    var r' := Renamed(r, left, right);
    l'.prev[r'] == Renamed(l.prev[r], left, right) && l'.next[r'] == Renamed(l.next[r], left, right)
  }

  /** Overwrite one element, unless the index is null. */
  function Put(s: seq<int>, i: int, value: int): (t: seq<int>)
    requires -1 <= i < |s|
    ensures |t| == |s|
  {
    if i == -1 then s else s[i := value]
  }

  /** What the updates amount to when the two buckets are not neighbours. */
  lemma SwappedApart(l: Links, left: int, right: int)
    requires l.WellFormed() && l.IsBucket(left) && l.IsBucket(right) && left != right
    requires l.prev[left] != left && l.prev[left] != right && l.next[left] != left && l.next[left] != right
    requires l.prev[right] != left && l.prev[right] != right && l.next[right] != left && l.next[right] != right
    ensures var l' := Swapped(l, left, right);
            && l'.next == Put(Put(l.next, l.prev[left], left), l.prev[right], right)
            && l'.prev == Put(Put(l.prev, l.next[left], left), l.next[right], right)
  {
  }

  /** What they amount to when the entry now in `right` precedes the one now in `left`. */
  lemma SwappedBefore(l: Links, left: int, right: int)
    requires l.WellFormed() && l.IsBucket(left) && l.IsBucket(right) && left != right
    requires l.prev[left] == left && l.next[left] != left && l.next[left] != right
    requires l.next[right] == right && l.prev[right] != left && l.prev[right] != right
    ensures var l' := Swapped(l, left, right);
            && l'.next == Put(l.next[right := left], l.prev[right], right)
            && l'.prev == Put(l.prev[left := right], l.next[left], left)
  {
  }

  /** And when it follows. */
  lemma SwappedAfter(l: Links, left: int, right: int)
    requires l.WellFormed() && l.IsBucket(left) && l.IsBucket(right) && left != right
    requires l.next[left] == left && l.prev[left] != left && l.prev[left] != right
    requires l.prev[right] == right && l.next[right] != left && l.next[right] != right
    ensures var l' := Swapped(l, left, right);
            && l'.next == Put(l.next[left := right], l.prev[left], left)
            && l'.prev == Put(l.prev[right := left], l.next[right], right)
  {
  }

  /** One direction of the list when a refers to b: y refers to a, and nothing else refers to them. */
  lemma HalfNear(s: seq<int>, y: int, a: int, b: int, r: int)
    requires 0 <= a < |s| && 0 <= b < |s| && 0 <= r < |s| && -1 <= y < |s|
    requires a != b && y != a && y != b && s[a] == b && (y != -1 ==> s[y] == a)
    requires (s[r] == a ==> r == y) && (s[r] == b ==> r == a)
    ensures Put(s[a := s[b]][b := s[a]][b := a], y, b)[Renamed(r, a, b)] == Renamed(s[r], a, b)
    ensures s[b := s[a]][a := s[b]] == s[a := s[b]][b := s[a]] && Renamed(r, b, a) == Renamed(r, a, b)
    ensures Renamed(s[r], b, a) == Renamed(s[r], a, b)
  {
  }

  lemma BeforeRenames(l: Links, left: int, right: int, r: int)
    requires Near(l, left) && Near(l, right) && Near(l, r) && left != right && l.prev[right] == left
    ensures RenamedAt(l, Swapped(Exchanged(l, left, right), left, right), left, right, r)
  {
    hide Swapped, Put, Renamed;
    SwappedBefore(Exchanged(l, left, right), left, right);
    HalfNear(l.next, l.prev[left], left, right, r);
    HalfNear(l.prev, l.next[right], right, left, r);
  }

  lemma AfterRenames(l: Links, left: int, right: int, r: int)
    requires Near(l, left) && Near(l, right) && Near(l, r) && left != right && l.next[right] == left
    ensures RenamedAt(l, Swapped(Exchanged(l, left, right), left, right), left, right, r)
  {
    hide Swapped, Put, Renamed;
    SwappedAfter(Exchanged(l, left, right), left, right);
    HalfNear(l.next, l.prev[right], right, left, r);
    HalfNear(l.prev, l.next[left], left, right, r);
  }

  /** One direction of the list: `x` refers to right and `y` to left, and nothing else does. */
  lemma HalfApart(s: seq<int>, x: int, y: int, left: int, right: int, r: int)
    requires 0 <= left < |s| && 0 <= right < |s| && 0 <= r < |s| && -1 <= x < |s| && -1 <= y < |s|
    requires left != right && x != left && x != right && y != left && y != right
    requires (x != -1 ==> s[x] == right) && (y != -1 ==> s[y] == left)
    requires (s[r] == left ==> r == y) && (s[r] == right ==> r == x)
    ensures Put(Put(s[left := s[right]][right := s[left]], x, left), y, right)[Renamed(r, left, right)] ==
            Renamed(s[r], left, right)
  {
  }

  lemma ApartRenames(l: Links, left: int, right: int, r: int)
    requires Near(l, left) && Near(l, right) && Near(l, r) && left != right
    requires l.prev[right] != left && l.next[right] != left
    ensures RenamedAt(l, Swapped(Exchanged(l, left, right), left, right), left, right, r)
  {
    hide Swapped, Put, Renamed;
    SwappedApart(Exchanged(l, left, right), left, right);
    HalfApart(l.next, l.prev[right], l.prev[left], left, right, r);
    HalfApart(l.prev, l.next[right], l.next[left], left, right, r);
  }

  /** After an exchange of contents, the pointer updates rename the two buckets everywhere. */
  lemma ExchangeRenames(l: Links, left: int, right: int, r: int)
    requires Near(l, left) && Near(l, right) && Near(l, r) && left != right
    ensures RenamedAt(l, Swapped(Exchanged(l, left, right), left, right), left, right, r)
  {
    hide Swapped, Exchanged, RenamedAt;
    if l.prev[right] == left {
      BeforeRenames(l, left, right, r);
    } else if l.next[right] == left {
      AfterRenames(l, left, right, r);
    } else {
      ApartRenames(l, left, right, r);
    }
  }

  /** After a copy, the pointer updates redirect every reference to the copy. */
  lemma CopyRenames(l: Links, left: int, right: int, r: int)
    requires Near(l, left) && l.IsBucket(right) && Near(l, r) && left != right && r != right
    requires l.prev[r] != right && l.next[r] != right && l.prev[left] != right && l.next[left] != right
    ensures RenamedAt(l, Swapped(Copied(l, left, right), left, right), left, right, r)
  {
  }

  lemma LinkedNear<K>(l: Links, order: seq<K>, where: map<K, nat>, j: nat)
    requires Linked(l, order, where) && j < |order|
    ensures Near(l, where[order[j]])
  {
    assert LinkedAt(l, order, where, j);
    if j > 0 { assert LinkedAt(l, order, where, j - 1); }
    if j + 1 < |order| { assert LinkedAt(l, order, where, j + 1); }
  }

  lemma RenamedInjective<K>(where: map<K, nat>, where': map<K, nat>, left: int, right: int)
    requires Injective(where) && where'.Keys == where.Keys
    requires forall k :: k in where ==> where'[k] == Renamed(where[k], left, right)
    ensures Injective(where')
  {
    forall k, k' | k in where' && k' in where' && where'[k] == where'[k'] ensures k == k' {
      assert where[k] == where[k'];
    }
  }

  /** A renamed list is linked under the renamed locations. */
  lemma RenamedLinked<K>(l: Links, l': Links, order: seq<K>, where: map<K, nat>, where': map<K, nat>, left: int,
                         right: int)
    requires Linked(l, order, where) && l'.WellFormed() && |l'.prev| == |l.prev| && l.IsBucket(left)
    requires l.IsBucket(right)
    requires where'.Keys == where.Keys && forall k :: k in where ==> where'[k] == Renamed(where[k], left, right)
    requires forall j :: 0 <= j < |order| ==> RenamedAt(l, l', left, right, where[order[j]])
    requires l'.head == Renamed(l.head, left, right) && l'.tail == Renamed(l.tail, left, right)
    ensures Linked(l', order, where')
  {
    hide Injective, RefAt, Renamed;
    RenamedInjective(where, where', left, right);
    RenamedBound(where, where', left, right, |l.prev|);
    RenamedRef(order, where, where', left, right, 0);
    RenamedRef(order, where, where', left, right, |order| - 1);
    forall j | 0 <= j < |order| ensures LinkedAt(l', order, where', j) {
      assert LinkedAt(l, order, where, j) && RenamedAt(l, l', left, right, where[order[j]]);
      RenamedRef(order, where, where', left, right, j - 1);
      RenamedRef(order, where, where', left, right, j);
      RenamedRef(order, where, where', left, right, j + 1);
      assert where[order[j]] == RefAt(order, where, j) && where'[order[j]] == RefAt(order, where', j) by {
        RefIs(order, where, j);
        RefIs(order, where', j);
      }
    }
  }

  lemma RenamedRef<K>(order: seq<K>, where: map<K, nat>, where': map<K, nat>, left: int, right: int, j: int)
    requires left >= 0 && right >= 0 && where'.Keys == where.Keys && forall k :: k in order ==> k in where
    requires forall k :: k in where ==> where'[k] == Renamed(where[k], left, right)
    ensures RefAt(order, where', j) == Renamed(RefAt(order, where, j), left, right)
  {
  }

  lemma RefIs<K>(order: seq<K>, where: map<K, nat>, j: nat)
    requires j < |order| && forall k :: k in order ==> k in where
    ensures RefAt(order, where, j) == where[order[j]]
  {
  }

  lemma RenamedBound<K>(where: map<K, nat>, where': map<K, nat>, left: int, right: int, n: nat)
    requires left < n && right < n && where'.Keys == where.Keys
    requires forall k :: k in where ==> where[k] < n && where'[k] == Renamed(where[k], left, right)
    ensures forall k :: k in where' ==> where'[k] < n
  {
  }

  /** A bucket copied elsewhere: its neighbours follow it to the new place. */
  lemma RelocatedLinked<K>(l: Links, order: seq<K>, where: map<K, nat>, i: nat, right: nat)
    requires Linked(l, order, where) && i < |order| && l.IsBucket(right)
    requires forall k :: k in where ==> where[k] != right
    ensures Linked(Swapped(Copied(l, where[order[i]], right), where[order[i]], right), order, where[order[i] := right])
  {
    hide Swapped, Copied, LinkedAt, RefAt, RenamedAt, Near;
    var left := where[order[i]];
    var l', where' := Swapped(Copied(l, left, right), left, right), where[order[i] := right];
    assert Vacant(where, right);
    forall j | 0 <= j < |order| ensures RenamedAt(l, l', left, right, where[order[j]]) {
      LinkedNear(l, order, where, i);
      LinkedNear(l, order, where, j);
      RefsOccupied(l, order, where, i, right);
      RefsOccupied(l, order, where, j, right);
      CopyRenames(l, left, right, where[order[j]]);
    }
    SwappedEnds(Copied(l, left, right), left, right);
    CopiedEnds(l, left, right);
    RenamedLinked(l, l', order, where, where', left, right);
  }

  lemma SwappedEnds(l: Links, left: int, right: int)
    requires l.WellFormed() && l.IsBucket(left) && l.IsBucket(right)
    ensures Swapped(l, left, right).head == Renamed(l.head, left, right)
    ensures Swapped(l, left, right).tail == Renamed(l.tail, left, right)
  {
  }

  lemma CopiedEnds(l: Links, a: int, b: int)
    requires l.WellFormed() && l.IsBucket(a) && l.IsBucket(b)
    ensures Copied(l, a, b).head == Exchanged(l, a, b).head == l.head
    ensures Copied(l, a, b).tail == Exchanged(l, a, b).tail == l.tail
  {
  }

  /** Two live buckets trade places, list neighbours or not. */
  lemma SwappedLinked<K>(l: Links, order: seq<K>, where: map<K, nat>, i: nat, j: nat)
    requires Linked(l, order, where) && i < |order| && j < |order| && i != j
    ensures var left, right := where[order[i]], where[order[j]];
            Linked(Swapped(Exchanged(l, left, right), left, right), order, where[order[i] := right][order[j] := left])
  {
    hide Swapped, Exchanged;
    var left, right := where[order[i]], where[order[j]];
    var l', where' := Swapped(Exchanged(l, left, right), left, right), where[order[i] := right][order[j] := left];
    assert left != right;
    forall n | 0 <= n < |order| ensures RenamedAt(l, l', left, right, where[order[n]]) {
      LinkedNear(l, order, where, i);
      LinkedNear(l, order, where, j);
      LinkedNear(l, order, where, n);
      ExchangeRenames(l, left, right, where[order[n]]);
    }
    SwappedEnds(Exchanged(l, left, right), left, right);
    CopiedEnds(l, left, right);
    RenamedLinked(l, l', order, where, where', left, right);
  }

  // ----- delete_bucket -----

  /** Take a bucket out of the list. */
  function Unlinked(l: Links, r: int): (l': Links)
    requires l.WellFormed() && l.IsBucket(r)
    ensures l'.WellFormed() && |l'.prev| == |l.prev|
  {
    var l1 := if l.prev[r] != -1 then SetNext(l, l.prev[r], l.next[r]) else l.(head := l.next[r]);
    var l2 := if l1.next[r] != -1 then SetPrev(l1, l1.next[r], l1.prev[r]) else l1.(tail := l1.prev[r]);
    Cleared(l2, r)
  }

  /** update_bucket_neighbors: the neighbours of a moved bucket refer to its new place. */
  function Rejoined(l: Links, r: int): (l': Links)
    requires l.WellFormed() && l.IsBucket(r)
    ensures l'.WellFormed() && |l'.prev| == |l.prev|
  {
    var l1 := if l.prev[r] != -1 then SetNext(l, l.prev[r], r) else l.(head := r);
    if l1.next[r] != -1 then SetPrev(l1, l1.next[r], r) else l1.(tail := r)
  }

  /** Shift a bucket's place in the list from one bucket to another. */
  function Moved(l: Links, from: int, to: int): (l': Links)
    requires l.WellFormed() && l.IsBucket(from) && l.IsBucket(to)
    ensures l'.WellFormed() && |l'.prev| == |l.prev|
  {
    Rejoined(Cleared(Copied(l, from, to), from), to)
  }

  function Without<K>(order: seq<K>, i: nat): seq<K>
    requires i < |order|
  {
    order[..i] + order[i + 1..]
  }

  lemma WithoutKeys<K>(order: seq<K>, where: map<K, nat>, i: nat)
    requires i < |order| && Distinct(order)
    requires (forall k :: k in order ==> k in where) && (forall k :: k in where ==> k in order)
    ensures Distinct(Without(order, i))
    ensures forall k :: k in Without(order, i) ==> k in where - {order[i]}
    ensures forall k :: k in where - {order[i]} ==> k in Without(order, i)
  {
    var order' := Without(order, i);
    assert forall j :: 0 <= j < |order'| ==> order'[j] == order[if j < i then j else j + 1];
    forall k | k in where - {order[i]} ensures k in order' {
      var j :| 0 <= j < |order| && order[j] == k;
      assert k == order'[if j < i then j else j - 1];
    }
  }

  /** Taking r out redirects the references around it and touches no others. */
  lemma UnlinkEffect(l: Links, r: int, q: int)
    requires Near(l, r) && Near(l, q) && q != r
    ensures Unlinked(l, r).prev[q] == (if l.prev[q] == r then l.prev[r] else l.prev[q])
    ensures Unlinked(l, r).next[q] == (if l.next[q] == r then l.next[r] else l.next[q])
  {
  }

  lemma UnlinkEnds(l: Links, r: int)
    requires Near(l, r)
    ensures Unlinked(l, r).head == (if l.prev[r] == -1 then l.next[r] else l.head)
    ensures Unlinked(l, r).tail == (if l.next[r] == -1 then l.prev[r] else l.tail)
  {
  }

  /** Positions after the removed key move up by one. */
  function Skip(i: int, j: int): int { if j < i then j else j + 1 }

  lemma RefWithout<K>(order: seq<K>, where: map<K, nat>, i: nat, j: int)
    requires i < |order| && Distinct(order)
    requires (forall k :: k in order ==> k in where) && (forall k :: k in where ==> k in order)
    ensures forall k :: k in Without(order, i) ==> k in where - {order[i]}
    ensures RefAt(Without(order, i), where - {order[i]}, j) == RefAt(order, where, Skip(i, j))
  {
    WithoutKeys(order, where, i);
  }

  lemma UnlinkedAt<K>(l: Links, order: seq<K>, where: map<K, nat>, i: nat, j: nat)
    requires Linked(l, order, where) && i < |order| && j < |order| - 1
    ensures forall k :: k in Without(order, i) ==> k in where - {order[i]}
    ensures LinkedAt(Unlinked(l, where[order[i]]), Without(order, i), where - {order[i]}, j)
  {
    hide Unlinked, RefAt, Without, Distinct, Injective;
    RefWithout(order, where, i, j - 1);
    RefWithout(order, where, i, j);
    RefWithout(order, where, i, j + 1);
    LinkedNear(l, order, where, i);
    LinkedNear(l, order, where, Skip(i, j));
    assert LinkedAt(l, order, where, i) && LinkedAt(l, order, where, Skip(i, j));
    UnlinkedRefs(order, where, i, j);
    UnlinkEffect(l, where[order[i]], where[order[Skip(i, j)]]);
  }

  lemma UnlinkedRefs<K>(order: seq<K>, where: map<K, nat>, i: nat, j: nat)
    requires i < |order| && j < |order| - 1 && Distinct(order) && Injective(where)
    requires (forall k :: k in order ==> k in where) && (forall k :: k in where ==> k in order)
    ensures var n, r := Skip(i, j), where[order[i]];
            && |Without(order, i)| == |order| - 1
            && Without(order, i)[j] == order[n] != order[i] && where[order[n]] != r
            && RefAt(order, where, Skip(i, j - 1))
               == (if RefAt(order, where, n - 1) == r then RefAt(order, where, i - 1) else RefAt(order, where, n - 1))
            && RefAt(order, where, Skip(i, j + 1))
               == (if RefAt(order, where, n + 1) == r then RefAt(order, where, i + 1) else RefAt(order, where, n + 1))
  {
  }

  lemma UnlinkedLinked<K>(l: Links, order: seq<K>, where: map<K, nat>, i: nat)
    requires Linked(l, order, where) && i < |order|
    ensures Linked(Unlinked(l, where[order[i]]), Without(order, i), where - {order[i]})
  {
    hide Unlinked, LinkedAt, Without;
    var order', where' := Without(order, i), where - {order[i]};
    WithoutKeys(order, where, i);
    assert |order'| == |order| - 1 by { WithoutLength(order, i); }
    forall j | 0 <= j < |order'| ensures LinkedAt(Unlinked(l, where[order[i]]), order', where', j) {
      UnlinkedAt(l, order, where, i, j);
    }
    UnlinkedEnds(l, order, where, i);
  }

  lemma WithoutLength<K>(order: seq<K>, i: nat)
    requires i < |order|
    ensures |Without(order, i)| == |order| - 1
  {
  }

  lemma UnlinkedEnds<K>(l: Links, order: seq<K>, where: map<K, nat>, i: nat)
    requires Linked(l, order, where) && i < |order|
    ensures var order', where' := Without(order, i), where - {order[i]};
            && (forall k :: k in order' ==> k in where')
            && Unlinked(l, where[order[i]]).head == RefAt(order', where', 0)
            && Unlinked(l, where[order[i]]).tail == RefAt(order', where', |order'| - 1)
  {
    hide Unlinked;
    assert LinkedAt(l, order, where, i);
    LinkedNear(l, order, where, i);
    UnlinkEnds(l, where[order[i]]);
    RefWithout(order, where, i, 0);
    RefWithout(order, where, i, |order| - 2);
  }

  lemma MoveRenames(l: Links, from: int, to: int, r: int)
    requires Near(l, from) && l.IsBucket(to) && Near(l, r) && from != to && r != to
    requires l.prev[r] != to && l.next[r] != to && l.prev[from] != to && l.next[from] != to
    ensures RenamedAt(l, Moved(l, from, to), from, to, r)
  {
  }

  lemma MovedEnds(l: Links, from: int, to: int)
    requires Near(l, from) && l.IsBucket(to) && from != to && l.head != to && l.tail != to
    requires (l.head == from <==> l.prev[from] == -1) && (l.tail == from <==> l.next[from] == -1)
    requires l.prev[from] != to && l.next[from] != to
    ensures Moved(l, from, to).head == Renamed(l.head, from, to) && Moved(l, from, to).tail == Renamed(l.tail, from, to)
  {
  }

  lemma EndsAgree<K>(l: Links, order: seq<K>, where: map<K, nat>, i: nat)
    requires Linked(l, order, where) && i < |order|
    ensures var r := where[order[i]]; (l.head == r <==> l.prev[r] == -1) && (l.tail == r <==> l.next[r] == -1)
  {
    assert LinkedAt(l, order, where, i);
  }

  /** A backward shift keeps the order. */
  lemma MovedLinked<K>(l: Links, order: seq<K>, where: map<K, nat>, i: nat, to: nat)
    requires Linked(l, order, where) && i < |order| && l.IsBucket(to)
    requires forall k :: k in where ==> where[k] != to
    ensures Linked(Moved(l, where[order[i]], to), order, where[order[i] := to])
  {
    hide Moved, RefAt, RenamedAt;
    var from := where[order[i]];
    LinkedNear(l, order, where, i);
    assert Vacant(where, to);
    RefsOccupied(l, order, where, i, to);
    EndsAgree(l, order, where, i);
    forall j | 0 <= j < |order| ensures RenamedAt(l, Moved(l, from, to), from, to, where[order[j]]) {
      LinkedNear(l, order, where, j);
      RefsOccupied(l, order, where, j, to);
      MoveRenames(l, from, to, where[order[j]]);
    }
    MovedEnds(l, from, to);
    RenamedLinked(l, Moved(l, from, to), order, where, where[order[i] := to], from, to);
  }

  // ----- unoccupied buckets -----

  ghost predicate Vacant<K>(where: map<K, nat>, r: int) {
    forall k :: k in where ==> where[k] != r
  }

  /** Buckets below n that hold nothing carry no references. */
  ghost predicate Tidy<K>(l: Links, where: map<K, nat>, n: nat)
    requires l.WellFormed() && n <= |l.prev|
  {
    forall r :: 0 <= r < n && Vacant(where, r) ==> l.prev[r] == -1 && l.next[r] == -1
  }

  lemma FixLeftFrame(l: Links, left: int, right: int, x: int)
    requires l.WellFormed() && l.IsBucket(left) && l.IsBucket(right) && l.IsBucket(x) && left != right
    requires x != left && x != right && x != l.prev[left] && x != l.next[left]
    ensures FixLeft(l, left, right).prev[x] == l.prev[x] && FixLeft(l, left, right).next[x] == l.next[x]
    ensures FixLeft(l, left, right).prev[right] == l.prev[right] || FixLeft(l, left, right).prev[right] == left
    ensures FixLeft(l, left, right).next[right] == l.next[right] || FixLeft(l, left, right).next[right] == left
  {
  }

  lemma FixRightFrame(l: Links, left: int, right: int, x: int)
    requires l.WellFormed() && l.IsBucket(left) && l.IsBucket(right) && l.IsBucket(x) && left != right
    requires x != left && x != right && x != l.prev[right] && x != l.next[right]
    ensures FixRight(l, left, right).prev[x] == l.prev[x] && FixRight(l, left, right).next[x] == l.next[x]
  {
  }

  lemma SwappedFrame(l: Links, left: int, right: int, x: int)
    requires l.WellFormed() && l.IsBucket(left) && l.IsBucket(right) && l.IsBucket(x) && left != right
    requires x != left && x != right && x != l.prev[left] && x != l.next[left] && x != l.prev[right]
    requires x != l.next[right]
    ensures Swapped(l, left, right).prev[x] == l.prev[x] && Swapped(l, left, right).next[x] == l.next[x]
  {
    hide FixLeft, FixRight;
    var l1 := l.(head := Renamed(l.head, left, right), tail := Renamed(l.tail, left, right));
    FixLeftFrame(l1, left, right, x);
    FixRightFrame(FixLeft(l1, left, right), left, right, x);
  }

  /** References of listed buckets lead to listed buckets. */
  lemma RefsOccupied<K>(l: Links, order: seq<K>, where: map<K, nat>, j: nat, x: int)
    requires Linked(l, order, where) && j < |order| && x >= 0 && Vacant(where, x)
    ensures x != where[order[j]] && x != l.prev[where[order[j]]] && x != l.next[where[order[j]]]
    ensures x != l.head && x != l.tail
  {
    assert LinkedAt(l, order, where, j);
  }

  /** write_value's displacement: the old entry's place in the list moves to `stack`, the new key goes to the end. */
  function Displaced(l: Links, p: int, stack: int): (l': Links)
    requires l.WellFormed() && l.IsBucket(p) && l.IsBucket(stack)
    requires var l1 := Swapped(Copied(l, p, stack), p, stack); l1.head != -1 ==> l1.tail != -1
    ensures l'.WellFormed() && |l'.prev| == |l.prev|
  {
    Appended(SetNext(Swapped(Copied(l, p, stack), p, stack), p, -1), p)
  }

  /** Changing the references of an unlisted bucket does not matter. */
  lemma UnlistedNext<K>(l: Links, order: seq<K>, where: map<K, nat>, r: int)
    requires Linked(l, order, where) && l.IsBucket(r) && Vacant(where, r)
    ensures Linked(SetNext(l, r, -1), order, where)
  {
    forall j | 0 <= j < |order| ensures LinkedAt(SetNext(l, r, -1), order, where, j) {
      assert LinkedAt(l, order, where, j);
    }
  }

  lemma DisplacedLinked<K>(l: Links, order: seq<K>, where: map<K, nat>, i: nat, stack: nat, k: K)
    requires Linked(l, order, where) && i < |order| && l.IsBucket(stack) && Vacant(where, stack) && k !in where
    ensures var l1 := Swapped(Copied(l, where[order[i]], stack), where[order[i]], stack);
            l1.head != -1 ==> l1.tail != -1
    ensures Linked(Displaced(l, where[order[i]], stack), order + [k], where[order[i] := stack][k := where[order[i]]])
  {
    hide Swapped, Copied, Appended;
    var p := where[order[i]];
    var l1, where1 := Swapped(Copied(l, p, stack), p, stack), where[order[i] := stack];
    RelocatedLinked(l, order, where, i, stack);
    assert Vacant(where1, p);
    UnlistedNext(l1, order, where1, p);
    AppendedLinked(SetNext(l1, p, -1), order, where1, k, p);
  }

  lemma StillVacant<K>(where: map<K, nat>, k: K, r: nat, x: int)
    requires Vacant(where[k := r], x)
    ensures x != r && ((k in where && where[k] == x) || Vacant(where, x))
  {
    assert k in where[k := r];
    if !(k in where && where[k] == x) {
      forall k' | k' in where ensures where[k'] != x { if k' != k { assert where[k := r][k'] == where[k']; } }
    }
  }

  // ----- what the table needs of each list operation -----

  /** The list over `cap` buckets and one spare: linked, and unoccupied buckets are clean. */
  ghost predicate ListOk<K>(l: Links, order: seq<K>, where: map<K, nat>, cap: nat) {
    Linked(l, order, where) && |l.prev| == cap + 1 && Tidy(l, where, cap)
  }

  lemma AppendAt(l: Links, r: int, x: int)
    requires l.WellFormed() && l.IsBucket(r) && (l.head != -1 ==> l.tail != -1) && l.IsBucket(x) && x != r
    requires (l.head != -1 ==> x != l.tail)
    ensures Appended(l, r).prev[x] == l.prev[x] && Appended(l, r).next[x] == l.next[x]
  {
  }

  lemma AppendOk<K>(l: Links, order: seq<K>, where: map<K, nat>, cap: nat, k: K, r: nat)
    requires ListOk(l, order, where, cap) && k !in where && r < cap && Vacant(where, r)
    ensures l.head != -1 ==> l.tail != -1
    ensures ListOk(Appended(l, r), order + [k], where[k := r], cap)
  {
    hide Appended, Linked;
    ListEnds(l, order, where);
    AppendedLinked(l, order, where, k, r);
    forall x | 0 <= x < cap && Vacant(where[k := r], x)
      ensures Appended(l, r).prev[x] == -1 && Appended(l, r).next[x] == -1
    {
      StillVacant(where, k, r, x);
      EndsOccupied(l, order, where, x);
      AppendAt(l, r, x);
    }
  }

  lemma ListEnds<K>(l: Links, order: seq<K>, where: map<K, nat>)
    requires Linked(l, order, where)
    ensures l.WellFormed() && Injective(where) && (l.head != -1 ==> l.tail != -1)
  {
    assert order != [] ==> l.tail == where[order[|order| - 1]];
  }

  lemma EndsOccupied<K>(l: Links, order: seq<K>, where: map<K, nat>, x: int)
    requires Linked(l, order, where) && x >= 0 && Vacant(where, x)
    ensures x != l.head && x != l.tail
  {
  }

  /** Relocation of a listed bucket to an unlisted one leaves the other unlisted ones alone. */
  lemma RelocatedFrame<K>(l: Links, order: seq<K>, where: map<K, nat>, i: nat, right: nat, x: nat)
    requires Linked(l, order, where) && i < |order| && l.IsBucket(right) && Vacant(where, right)
    requires l.IsBucket(x) && x != right && Vacant(where, x)
    ensures var l' := Swapped(Copied(l, where[order[i]], right), where[order[i]], right);
            l'.prev[x] == l.prev[x] && l'.next[x] == l.next[x]
  {
    hide Swapped;
    var left := where[order[i]];
    RefsOccupied(l, order, where, i, x);
    SwappedFrame(Copied(l, left, right), left, right, x);
  }

  lemma PlaceOk<K>(l: Links, order: seq<K>, where: map<K, nat>, cap: nat, i: nat, f: nat)
    requires ListOk(l, order, where, cap) && i < |order| && where[order[i]] == cap && f < cap && Vacant(where, f)
    ensures ListOk(Swapped(Copied(l, cap, f), cap, f), order, where[order[i] := f], cap)
  {
    hide Swapped, Copied;
    RelocatedLinked(l, order, where, i, f);
    forall x | 0 <= x < cap && Vacant(where[order[i] := f], x)
      ensures Swapped(Copied(l, cap, f), cap, f).prev[x] == -1 && Swapped(Copied(l, cap, f), cap, f).next[x] == -1
    {
      StillVacant(where, order[i], f, x);
      RelocatedFrame(l, order, where, i, f, x);
    }
  }

  lemma DisplaceOk<K>(l: Links, order: seq<K>, where: map<K, nat>, cap: nat, i: nat, k: K)
    requires ListOk(l, order, where, cap) && i < |order| && where[order[i]] < cap && Vacant(where, cap) && k !in where
    ensures var p := where[order[i]]; var l1 := Swapped(Copied(l, p, cap), p, cap); l1.head != -1 ==> l1.tail != -1
    ensures ListOk(Displaced(l, where[order[i]], cap), order + [k], where[order[i] := cap][k := where[order[i]]], cap)
  {
    hide Swapped, Copied, Appended;
    var p := where[order[i]];
    var l1, where1 := Swapped(Copied(l, p, cap), p, cap), where[order[i] := cap];
    DisplacedLinked(l, order, where, i, cap, k);
    RelocatedLinked(l, order, where, i, cap);
    forall x | 0 <= x < cap && Vacant(where1[k := p], x)
      ensures Displaced(l, p, cap).prev[x] == -1 && Displaced(l, p, cap).next[x] == -1
    {
      StillVacant(where1, k, p, x);
      StillVacant(where, order[i], cap, x);
      RelocatedFrame(l, order, where, i, cap, x);
      EndsOccupied(l1, order, where1, x);
      AppendAt(SetNext(l1, p, -1), p, x);
    }
  }

  lemma SwapOk<K>(l: Links, order: seq<K>, where: map<K, nat>, cap: nat, i: nat, j: nat)
    requires ListOk(l, order, where, cap) && i < |order| && j < |order| && i != j && where[order[i]] == cap
    ensures var p := where[order[j]];
            ListOk(Swapped(Exchanged(l, cap, p), cap, p), order, where[order[i] := p][order[j] := cap], cap)
  {
    hide Swapped;
    var p := where[order[j]];
    SwappedLinked(l, order, where, i, j);
    var where' := where[order[i] := p][order[j] := cap];
    forall x | 0 <= x < cap && Vacant(where', x)
      ensures Swapped(Exchanged(l, cap, p), cap, p).prev[x] == -1 && Swapped(Exchanged(l, cap, p), cap, p).next[x] == -1
    {
      StillVacant(where[order[i] := p], order[j], cap, x);
      assert where'[order[i]] == p;
      StillVacant(where, order[i], p, x);
      RefsOccupied(l, order, where, i, x);
      RefsOccupied(l, order, where, j, x);
      SwappedFrame(Exchanged(l, cap, p), cap, p, x);
    }
  }

  lemma UnlinkedFrame(l: Links, r: int, x: int)
    requires l.WellFormed() && l.IsBucket(r) && l.IsBucket(x) && l.prev[r] != r && l.next[r] != r && x != l.prev[r]
    requires x != l.next[r]
    ensures if x == r then Unlinked(l, r).prev[x] == -1 && Unlinked(l, r).next[x] == -1
            else Unlinked(l, r).prev[x] == l.prev[x] && Unlinked(l, r).next[x] == l.next[x]
  {
  }

  lemma UnlinkOk<K>(l: Links, order: seq<K>, where: map<K, nat>, cap: nat, i: nat)
    requires ListOk(l, order, where, cap) && i < |order|
    ensures ListOk(Unlinked(l, where[order[i]]), Without(order, i), where - {order[i]}, cap)
  {
    hide Unlinked, Without;
    var r := where[order[i]];
    UnlinkedLinked(l, order, where, i);
    LinkedNear(l, order, where, i);
    forall x | 0 <= x < cap && Vacant(where - {order[i]}, x)
      ensures Unlinked(l, r).prev[x] == -1 && Unlinked(l, r).next[x] == -1
    {
      if x != r {
        assert Vacant(where, x) by {
          forall k | k in where ensures where[k] != x { if k != order[i] { assert k in where - {order[i]}; } }
        }
        RefsOccupied(l, order, where, i, x);
      }
      UnlinkedFrame(l, r, x);
    }
  }

  lemma MovedFrame(l: Links, from: int, to: int, x: int)
    requires l.WellFormed() && l.IsBucket(from) && l.IsBucket(to) && l.IsBucket(x) && from != to && x != to
    requires l.prev[from] != from && l.next[from] != from && l.prev[from] != to && l.next[from] != to
    requires x != l.prev[from] && x != l.next[from]
    ensures if x == from then Moved(l, from, to).prev[x] == -1 && Moved(l, from, to).next[x] == -1
            else Moved(l, from, to).prev[x] == l.prev[x] && Moved(l, from, to).next[x] == l.next[x]
  {
  }

  lemma MoveOk<K>(l: Links, order: seq<K>, where: map<K, nat>, cap: nat, i: nat, to: nat)
    requires ListOk(l, order, where, cap) && i < |order| && to < cap && Vacant(where, to)
    ensures ListOk(Moved(l, where[order[i]], to), order, where[order[i] := to], cap)
  {
    hide Moved;
    var from := where[order[i]];
    MovedLinked(l, order, where, i, to);
    LinkedNear(l, order, where, i);
    RefsOccupied(l, order, where, i, to);
    forall x | 0 <= x < cap && Vacant(where[order[i] := to], x)
      ensures Moved(l, from, to).prev[x] == -1 && Moved(l, from, to).next[x] == -1
    {
      StillVacant(where, order[i], to, x);
      if x != from { RefsOccupied(l, order, where, i, x); }
      MovedFrame(l, from, to, x);
    }
  }
}
