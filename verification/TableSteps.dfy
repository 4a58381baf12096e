/**
 One-step mutations of the bucket storage of AK/HashTable.h and the relation they keep
 between the storage and the abstract table: a map from keys to values together with
 the order of first insertion.  The storage has one spare bucket behind the last one;
 it stands for the bucket that write_value keeps on the stack while it displaces entries.
 */
module TableSteps {
  import opened Probing
  import opened OrderLinks

  datatype Table<K, V> = Table(cells: seq<Bucket<K, V>>, links: Links, cap: nat)

  /** The abstract table, and where each key currently is. */
  datatype View<K, V> = View(where: map<K, nat>, order: seq<K>, contents: map<K, V>)

  ghost predicate OrderKeys<K>(order: seq<K>, where: map<K, nat>) {
    && Distinct(order)
    && (forall k :: k in order ==> k in where)
    && (forall k :: k in where ==> k in order)
  }

  ghost predicate Holds<K, V>(cells: seq<Bucket<K, V>>, where: map<K, nat>, contents: map<K, V>) {
    && contents.Keys == where.Keys
    && forall k :: k in where ==>
         where[k] < |cells| && cells[where[k]].Used? && cells[where[k]].entry == Entry(k, contents[k])
  }

  /** Storage and view agree; bucket `stale` (if any) is about to be overwritten. */
  ghost predicate Ok<K, V>(hash: K -> nat, ordered: bool, t: Table<K, V>, v: View<K, V>, stale: int) {
    && |t.cells| == t.cap + 1
    && RobinHood(hash, t.cells, t.cap)
    && Located(t.cells, v.where, stale)
    && Holds(t.cells, v.where, v.contents)
    && OrderKeys(v.order, v.where)
    && (ordered ==> ListOk(t.links, v.order, v.where, t.cap))
  }

  function Insert<K, V>(v: View<K, V>, e: Entry<K, V>, i: nat): View<K, V> {
    View(v.where[e.key := i], v.order + [e.key], v.contents[e.key := e.value])
  }

  lemma OrderInsert<K>(order: seq<K>, where: map<K, nat>, k: K, i: nat)
    requires OrderKeys(order, where) && k !in where
    ensures OrderKeys(order + [k], where[k := i])
  {
    assert forall k' :: k' in where ==> k' in (order + [k]);
    assert (order + [k])[|order|] == k;
  }

  lemma OrderMove<K>(order: seq<K>, where: map<K, nat>, k: K, i: nat)
    requires OrderKeys(order, where) && k in where
    ensures OrderKeys(order, where[k := i])
  {
  }

  // ----- insertion into a free bucket -----

  function Placed<K, V>(ordered: bool, t: Table<K, V>, i: nat, probe: nat, e: Entry<K, V>): (t': Table<K, V>)
    requires i < |t.cells|
    requires ordered ==> t.links.WellFormed() && t.links.IsBucket(i) && (t.links.head != -1 ==> t.links.tail != -1)
    ensures t'.cap == t.cap && |t'.cells| == |t.cells|
  {
    t.(cells := t.cells[i := Used(StateFor(probe), e)], links := if ordered then Appended(t.links, i) else t.links)
  }

  lemma PlacedOk<K, V>(hash: K -> nat, ordered: bool, t: Table<K, V>, v: View<K, V>, i: nat, e: Entry<K, V>)
    requires Ok(hash, ordered, t, v, -1) && i < t.cap && t.cells[i].Free? && e.key !in v.where
    requires RobinHood(hash, t.cells[i := Used(StateFor(Dist(t.cap, Home(hash, t.cap, e.key), i)), e)], t.cap)
    ensures ordered ==> t.links.WellFormed() && t.links.IsBucket(i) && (t.links.head != -1 ==> t.links.tail != -1)
    ensures Ok(hash, ordered, Placed(ordered, t, i, Dist(t.cap, Home(hash, t.cap, e.key), i), e), Insert(v, e, i), -1)
  {
    hide RobinHood, Appended, Linked, Distinct, Tidy;
    OrderInsert(v.order, v.where, e.key, i);
    assert Vacant(v.where, i);
    if ordered {
      AppendOk(t.links, v.order, v.where, t.cap, e.key, i);
      ListEnds(t.links, v.order, v.where);
    }
  }

  // ----- in-place replacement -----

  function Replaced<K, V>(t: Table<K, V>, i: nat, e: Entry<K, V>): (t': Table<K, V>)
    requires i < |t.cells| && t.cells[i].Used?
    ensures t'.cap == t.cap && |t'.cells| == |t.cells|
  {
    t.(cells := t.cells[i := t.cells[i].(entry := e)])
  }

  lemma ReplacedOk<K, V>(hash: K -> nat, ordered: bool, t: Table<K, V>, v: View<K, V>, i: nat, e: Entry<K, V>)
    requires Ok(hash, ordered, t, v, -1) && i < t.cap && t.cells[i].Used? && t.cells[i].entry.key == e.key
    ensures Ok(hash, ordered, Replaced(t, i, e), v.(contents := v.contents[e.key := e.value]), -1)
  {
    hide ListOk, Distinct;
    var cells' := Replaced(t, i, e).cells;
    assert RobinHood(hash, cells', t.cap) by {
      forall j | 0 <= j < t.cap ensures OrderedAt(hash, cells', t.cap, j) { assert OrderedAt(hash, t.cells, t.cap, j); }
    }
  }

  // ----- displacement through the spare bucket -----

  function Displace<K, V>(ordered: bool, t: Table<K, V>, i: nat, probe: nat, e: Entry<K, V>): (t': Table<K, V>)
    requires i < t.cap && |t.cells| == t.cap + 1
    requires ordered ==> t.links.WellFormed() && |t.links.prev| == t.cap + 1
    requires ordered ==> var l := Swapped(Copied(t.links, i, t.cap), i, t.cap); l.head != -1 ==> l.tail != -1
    ensures t'.cap == t.cap && |t'.cells| == |t.cells|
  {
    t.(cells := t.cells[t.cap := t.cells[i]][i := Used(StateFor(probe), e)],
       links := if ordered then Displaced(t.links, i, t.cap) else t.links)
  }

  lemma OrderIndex<K>(order: seq<K>, where: map<K, nat>, k: K) returns (i: nat)
    requires OrderKeys(order, where) && k in where
    ensures i < |order| && order[i] == k
  {
    i :| 0 <= i < |order| && order[i] == k;
  }

  lemma DisplacedEntries<K, V>(cells: seq<Bucket<K, V>>, cap: nat, where: map<K, nat>, contents: map<K, V>, i: nat,
                               b: Bucket<K, V>)
    requires Located(cells, where, -1) && Holds(cells, where, contents) && i < cap && |cells| == cap + 1
    requires cells[i].Used? && cells[cap].Free? && b.Used? && b.entry.key !in where
    ensures cells[i].entry.key in where && where[cells[i].entry.key] == i && Vacant(where, cap)
    ensures Located(cells[cap := cells[i]][i := b], where[cells[i].entry.key := cap][b.entry.key := i], -1)
    ensures Holds(cells[cap := cells[i]][i := b], where[cells[i].entry.key := cap][b.entry.key := i],
                  contents[b.entry.key := b.entry.value])
  {
  }

  lemma DisplaceOkTable<K, V>(hash: K -> nat, ordered: bool, t: Table<K, V>, v: View<K, V>, i: nat, e: Entry<K, V>)
    requires Ok(hash, ordered, t, v, -1) && i < t.cap && t.cells[i].Used? && t.cells[t.cap].Free? && e.key !in v.where
    requires RobinHood(hash, t.cells[i := Used(StateFor(Dist(t.cap, Home(hash, t.cap, e.key), i)), e)], t.cap)
    ensures ordered ==> t.links.WellFormed() && |t.links.prev| == t.cap + 1
    ensures ordered ==> var l := Swapped(Copied(t.links, i, t.cap), i, t.cap); l.head != -1 ==> l.tail != -1
    ensures var x := t.cells[i].entry.key;
            Ok(hash, ordered, Displace(ordered, t, i, Dist(t.cap, Home(hash, t.cap, e.key), i), e),
               Insert(v.(where := v.where[x := t.cap]), e, i), -1)
  {
    hide RobinHood, Displaced, Swapped, Copied, Linked, Distinct, Tidy, Located, Holds;
    var x, probe := t.cells[i].entry.key, Dist(t.cap, Home(hash, t.cap, e.key), i);
    DisplacedEntries(t.cells, t.cap, v.where, v.contents, i, Used(StateFor(probe), e));
    OrderMove(v.order, v.where, x, t.cap);
    OrderInsert(v.order, v.where[x := t.cap], e.key, i);
    SpareIrrelevant(hash, t.cells[i := Used(StateFor(probe), e)], t.cap, t.cells[i]);
    assert t.cells[t.cap := t.cells[i]][i := Used(StateFor(probe), e)] ==
           t.cells[i := Used(StateFor(probe), e)][t.cap := t.cells[i]];
    if ordered {
      var n := OrderIndex(v.order, v.where, x);
      ListEnds(t.links, v.order, v.where);
      DisplaceOk(t.links, v.order, v.where, t.cap, n, e.key);
    }
  }

  /** The Robin Hood order does not look at the spare bucket. */
  lemma SpareIrrelevant<K, V>(hash: K -> nat, cells: seq<Bucket<K, V>>, cap: nat, b: Bucket<K, V>)
    requires RobinHood(hash, cells, cap) && |cells| == cap + 1
    ensures RobinHood(hash, cells[cap := b], cap)
  {
    var cells' := cells[cap := b];
    forall j | 0 <= j < cap ensures OrderedAt(hash, cells', cap, j) { assert OrderedAt(hash, cells, cap, j); }
  }

  /** swap(bucket_to_move, *bucket): the carried entry takes bucket i, its entry is carried on. */
  function SwapSpare<K, V>(ordered: bool, t: Table<K, V>, i: nat, probe: nat): (t': Table<K, V>)
    requires i < t.cap && |t.cells| == t.cap + 1 && t.cells[t.cap].Used?
    requires ordered ==> t.links.WellFormed() && |t.links.prev| == t.cap + 1
    ensures t'.cap == t.cap && |t'.cells| == |t.cells|
  {
    t.(cells := t.cells[t.cap := t.cells[i]][i := Used(StateFor(probe), t.cells[t.cap].entry)],
       links := if ordered then Swapped(Exchanged(t.links, t.cap, i), t.cap, i) else t.links)
  }

  /** Two entries change places. */
  lemma SwapCells<K, V>(cells: seq<Bucket<K, V>>, where: map<K, nat>, contents: map<K, V>, s: nat, i: nat,
                        b: Bucket<K, V>)
    requires Located(cells, where, -1) && Holds(cells, where, contents)
    requires s < |cells| && i < |cells| && s != i && cells[s].Used? && cells[i].Used?
    requires b.Used? && b.entry == cells[s].entry
    ensures var x, y := cells[s].entry.key, cells[i].entry.key;
            && x in where && y in where && x != y && where[x] == s && where[y] == i
            && Located(cells[s := cells[i]][i := b], where[x := i][y := s], -1)
            && Holds(cells[s := cells[i]][i := b], where[x := i][y := s], contents)
  {
  }

  lemma SwapSpareOk<K, V>(hash: K -> nat, ordered: bool, t: Table<K, V>, v: View<K, V>, i: nat)
    requires Ok(hash, ordered, t, v, -1) && i < t.cap && t.cells[i].Used? && t.cells[t.cap].Used?
    requires var e := t.cells[t.cap].entry;
             RobinHood(hash, t.cells[i := Used(StateFor(Dist(t.cap, Home(hash, t.cap, e.key), i)), e)], t.cap)
    ensures ordered ==> t.links.WellFormed() && |t.links.prev| == t.cap + 1
    ensures var x, y := t.cells[t.cap].entry.key, t.cells[i].entry.key;
            Ok(hash, ordered, SwapSpare(ordered, t, i, Dist(t.cap, Home(hash, t.cap, x), i)),
               v.(where := v.where[x := i][y := t.cap]), -1)
  {
    hide RobinHood, Swapped, Exchanged, Linked, Located, Holds, OrderKeys, Tidy;
    var e, x, y := t.cells[t.cap].entry, t.cells[t.cap].entry.key, t.cells[i].entry.key;
    var b := Used(StateFor(Dist(t.cap, Home(hash, t.cap, x), i)), e);
    SwapCells(t.cells, v.where, v.contents, t.cap, i, b);
    OrderMove(v.order, v.where, x, i);
    OrderMove(v.order, v.where[x := i], y, t.cap);
    SpareIrrelevant(hash, t.cells[i := b], t.cap, t.cells[i]);
    assert t.cells[t.cap := t.cells[i]][i := b] == t.cells[i := b][t.cap := t.cells[i]];
    if ordered {
      var m := OrderIndex(v.order, v.where, x);
      var n := OrderIndex(v.order, v.where, y);
      ListEnds(t.links, v.order, v.where);
      SwapOk(t.links, v.order, v.where, t.cap, m, n);
    }
  }

  /** The carried entry ends its journey in free bucket i. */
  function PlaceSpare<K, V>(ordered: bool, t: Table<K, V>, i: nat, probe: nat): (t': Table<K, V>)
    requires i < t.cap && |t.cells| == t.cap + 1 && t.cells[t.cap].Used?
    requires ordered ==> t.links.WellFormed() && |t.links.prev| == t.cap + 1
    ensures t'.cap == t.cap && |t'.cells| == |t.cells|
  {
    t.(cells := t.cells[t.cap := Free][i := Used(StateFor(probe), t.cells[t.cap].entry)],
       links := if ordered then Swapped(Copied(t.links, t.cap, i), t.cap, i) else t.links)
  }

  lemma PlaceSpareOk<K, V>(hash: K -> nat, ordered: bool, t: Table<K, V>, v: View<K, V>, i: nat)
    requires Ok(hash, ordered, t, v, -1) && i < t.cap && t.cells[i].Free? && t.cells[t.cap].Used?
    requires var e := t.cells[t.cap].entry;
             RobinHood(hash, t.cells[i := Used(StateFor(Dist(t.cap, Home(hash, t.cap, e.key), i)), e)], t.cap)
    ensures ordered ==> t.links.WellFormed() && |t.links.prev| == t.cap + 1
    ensures var x := t.cells[t.cap].entry.key;
            Ok(hash, ordered, PlaceSpare(ordered, t, i, Dist(t.cap, Home(hash, t.cap, x), i)),
               v.(where := v.where[x := i]), -1)
  {
    hide RobinHood, Swapped, Copied, Linked, Distinct, Tidy;
    var e, x := t.cells[t.cap].entry, t.cells[t.cap].entry.key;
    var b := Used(StateFor(Dist(t.cap, Home(hash, t.cap, x), i)), e);
    OrderMove(v.order, v.where, x, i);
    SpareIrrelevant(hash, t.cells[i := b], t.cap, Free);
    assert t.cells[t.cap := Free][i := b] == t.cells[i := b][t.cap := Free];
    assert Vacant(v.where, i);
    if ordered {
      var m := OrderIndex(v.order, v.where, x);
      ListEnds(t.links, v.order, v.where);
      PlaceOk(t.links, v.order, v.where, t.cap, m, i);
    }
  }

  // ----- deletion -----

  /** The elements of `s` that are in `keys`, in order. */
  function Keep<K(==)>(s: seq<K>, keys: set<K>): (t: seq<K>) {
    if s == [] then [] else Keep(s[..|s| - 1], keys) + (if s[|s| - 1] in keys then [s[|s| - 1]] else [])
  }

  /** Only keys of the sequence and of the set are kept. */
  lemma {:induction false} KeepWithin<K>(s: seq<K>, keys: set<K>, k: K)
    ensures k in Keep(s, keys) <==> k in s && k in keys
  {
    if s != [] {
      KeepWithin(s[..|s| - 1], keys, k);
      assert s == s[..|s| - 1] + [s[|s| - 1]];
    }
  }

  lemma {:induction false} KeepAll<K>(s: seq<K>, keys: set<K>)
    requires forall j :: 0 <= j < |s| ==> s[j] in keys
    ensures Keep(s, keys) == s
  {
    if s != [] {
      KeepAll(s[..|s| - 1], keys);
      hide Keep;
      KeepStep(s, keys);
      assert s == s[..|s| - 1] + [s[|s| - 1]];
    }
  }

  lemma {:induction false} KeepConcat<K>(s: seq<K>, t: seq<K>, keys: set<K>)
    ensures Keep(s + t, keys) == Keep(s, keys) + Keep(t, keys)
  {
    if t == [] {
      assert s + t == s;
    } else {
      assert (s + t)[..|s + t| - 1] == s + t[..|t| - 1];
      KeepConcat(s, t[..|t| - 1], keys);
    }
  }

  /** Filtering twice is filtering by the smaller set. */
  lemma {:induction false} KeepTwice<K>(s: seq<K>, keys: set<K>, keys': set<K>)
    requires keys' <= keys
    ensures Keep(Keep(s, keys), keys') == Keep(s, keys')
  {
    if s != [] {
      var x := if s[|s| - 1] in keys then [s[|s| - 1]] else [];
      KeepTwice(s[..|s| - 1], keys, keys');
      KeepConcat(Keep(s[..|s| - 1], keys), x, keys');
      if x != [] { assert x[..0] == []; }
    }
  }

  lemma KeepWithout<K>(order: seq<K>, where: map<K, nat>, i: nat)
    requires OrderKeys(order, where) && i < |order|
    ensures Keep(order, where.Keys - {order[i]}) == Without(order, i)
  {
    hide Keep;
    var keys, a, b := where.Keys - {order[i]}, order[..i], order[i + 1..];
    forall j | 0 <= j < |a| ensures a[j] in keys { assert a[j] == order[j] && order[j] in order; }
    forall j | 0 <= j < |b| ensures b[j] in keys { assert b[j] == order[i + 1 + j] && order[i + 1 + j] in order; }
    assert order == (order[..i] + [order[i]]) + order[i + 1..];
    KeepParts(a, order[i], b, keys);
  }

  lemma {:induction false} KeepParts<K>(a: seq<K>, x: K, b: seq<K>, keys: set<K>)
    requires x !in keys && (forall j :: 0 <= j < |a| ==> a[j] in keys) && (forall j :: 0 <= j < |b| ==> b[j] in keys)
    ensures Keep((a + [x]) + b, keys) == a + b
    decreases |b|
  {
    hide Keep;
    var s, n := (a + [x]) + b, |b| - 1;
    KeepStep(s, keys);
    if b == [] {
      assert s[..|s| - 1] == a;
      KeepAll(a, keys);
      assert a + b == a;
    } else {
      assert s[..|s| - 1] == (a + [x]) + b[..n];
      KeepParts(a, x, b[..n], keys);
      assert a + b == (a + b[..n]) + [b[n]];
    }
  }

  lemma KeepStep<K>(s: seq<K>, keys: set<K>)
    requires s != []
    ensures Keep(s, keys) == Keep(s[..|s| - 1], keys) + (if s[|s| - 1] in keys then [s[|s| - 1]] else [])
  {
  }

  function Removed<K, V>(v: View<K, V>, k: K): View<K, V> {
    View(v.where - {k}, Keep(v.order, v.where.Keys - {k}), v.contents - {k})
  }

  lemma OrderRemove<K>(order: seq<K>, where: map<K, nat>, k: K)
    requires OrderKeys(order, where) && k in where
    ensures OrderKeys(Keep(order, where.Keys - {k}), where - {k})
  {
    var i := OrderIndex(order, where, k);
    KeepWithout(order, where, i);
    WithoutKeys(order, where, i);
  }

  /** The start of delete_bucket: the entry is destroyed and leaves the list; its bucket still looks used. */
  function Unlink<K, V>(ordered: bool, t: Table<K, V>, i: nat): (t': Table<K, V>)
    requires ordered ==> t.links.WellFormed() && t.links.IsBucket(i)
    ensures t'.cap == t.cap && |t'.cells| == |t.cells|
  {
    t.(links := if ordered then Unlinked(t.links, i) else t.links)
  }

  lemma UnlinkOkTable<K, V>(hash: K -> nat, ordered: bool, t: Table<K, V>, v: View<K, V>, i: nat)
    requires Ok(hash, ordered, t, v, -1) && i < t.cap && t.cells[i].Used?
    ensures ordered ==> t.links.WellFormed() && t.links.IsBucket(i)
    ensures Ok(hash, ordered, Unlink(ordered, t, i), Removed(v, t.cells[i].entry.key), i)
  {
    hide RobinHood, Unlinked, Linked, Distinct, Tidy, Keep;
    var k := t.cells[i].entry.key;
    OrderRemove(v.order, v.where, k);
    if ordered {
      var n := OrderIndex(v.order, v.where, k);
      KeepWithout(v.order, v.where, n);
      ListEnds(t.links, v.order, v.where);
      UnlinkOk(t.links, v.order, v.where, t.cap, n);
    }
  }

  /** One backward shift: the entry after bucket `to` moves into it. */
  function Shift<K, V>(ordered: bool, t: Table<K, V>, to: nat, probe: nat): (t': Table<K, V>)
    requires to < t.cap < |t.cells| && t.cells[Next(t.cap, to)].Used? && probe > 0
    requires ordered ==> t.links.WellFormed() && |t.links.prev| == t.cap + 1
    ensures t'.cap == t.cap && |t'.cells| == |t.cells|
  {
    var from := Next(t.cap, to);
    t.(cells := t.cells[to := Used(StateFor(probe - 1), t.cells[from].entry)],
       links := if ordered then Moved(t.links, from, to) else t.links)
  }

  /** An entry moves into the stale bucket and leaves its own one stale. */
  lemma ShiftCells<K, V>(cells: seq<Bucket<K, V>>, where: map<K, nat>, contents: map<K, V>, from: nat, to: nat,
                         b: Bucket<K, V>)
    requires Located(cells, where, to) && Holds(cells, where, contents)
    requires from < |cells| && to < |cells| && from != to && cells[from].Used?
    requires b.Used? && b.entry == cells[from].entry
    ensures var k := b.entry.key;
            && k in where && where[k] == from && Vacant(where, to)
            && Located(cells[to := b], where[k := to], from) && Holds(cells[to := b], where[k := to], contents)
  {
  }

  lemma ShiftOkTable<K, V>(hash: K -> nat, ordered: bool, t: Table<K, V>, v: View<K, V>, to: nat)
    requires Ok(hash, ordered, t, v, to) && to < t.cap && t.cells[to].Used? && t.cells[Next(t.cap, to)].Used?
    requires Probe(hash, t.cells, t.cap, Next(t.cap, to)) > 0
    ensures ordered ==> t.links.WellFormed() && |t.links.prev| == t.cap + 1
    ensures var from := Next(t.cap, to);
            Ok(hash, ordered, Shift(ordered, t, to, Probe(hash, t.cells, t.cap, from)),
               v.(where := v.where[t.cells[from].entry.key := to]), from)
  {
    hide RobinHood, Moved, Linked, Located, Holds, OrderKeys, Vacant, Tidy;
    var from := Next(t.cap, to);
    var k := t.cells[from].entry.key;
    assert from != to;
    ShiftKeeps(hash, t.cells, t.cap, to);
    ShiftCells(t.cells, v.where, v.contents, from, to,
               Used(StateFor(Probe(hash, t.cells, t.cap, from) - 1), t.cells[from].entry));
    OrderMove(v.order, v.where, k, to);
    if ordered {
      var n := OrderIndex(v.order, v.where, k);
      ListEnds(t.links, v.order, v.where);
      MoveOk(t.links, v.order, v.where, t.cap, n, to);
    }
  }

  /** The end of delete_bucket: the last vacated bucket is marked free. */
  function MarkFree<K, V>(t: Table<K, V>, i: nat): (t': Table<K, V>)
    requires i < |t.cells|
    ensures t'.cap == t.cap && |t'.cells| == |t.cells|
  {
    t.(cells := t.cells[i := Free])
  }

  lemma MarkFreeOk<K, V>(hash: K -> nat, ordered: bool, t: Table<K, V>, v: View<K, V>, i: nat)
    requires Ok(hash, ordered, t, v, i) && i < t.cap
    requires t.cells[Next(t.cap, i)].Used? ==> Probe(hash, t.cells, t.cap, Next(t.cap, i)) == 0
    ensures Ok(hash, ordered, MarkFree(t, i), v, -1)
  {
    hide RobinHood, ListOk;
    FreeKeeps(hash, t.cells, t.cap, i);
  }

  // ----- what the loops read off the relation -----

  lemma ViewSize<K, V>(hash: K -> nat, ordered: bool, t: Table<K, V>, v: View<K, V>)
    requires Ok(hash, ordered, t, v, -1)
    ensures |t.cells| == t.cap + 1 && v.where.Keys == v.contents.Keys && |v.where| == |v.contents|
  {
    assert |v.where.Keys| == |v.contents.Keys|;
  }

  /** The order lists the keys of the table and nothing else. */
  lemma ViewOrder<K(!new), V>(hash: K -> nat, ordered: bool, t: Table<K, V>, v: View<K, V>)
    requires t.cap > 0 ==> Ok(hash, ordered, t, v, -1)
    requires t.cap == 0 ==> v == View(map[], [], map[])
    ensures Distinct(v.order) && (forall k :: k in v.order <==> k in v.contents)
    ensures Keep(v.order, v.contents.Keys) == v.order
  {
    KeepAll(v.order, v.contents.Keys);
  }

  lemma KeyPresent<K, V>(hash: K -> nat, ordered: bool, t: Table<K, V>, v: View<K, V>, i: nat)
    requires Ok(hash, ordered, t, v, -1) && i < |t.cells| && t.cells[i].Used?
    ensures t.cells[i].entry.key in v.where && v.where[t.cells[i].entry.key] == i
    ensures t.cells[i].entry.key in v.contents && t.cells[i].entry.value == v.contents[t.cells[i].entry.key]
  {
  }

  lemma SpareLeavesFree<K, V>(hash: K -> nat, ordered: bool, t: Table<K, V>, v: View<K, V>) returns (f: nat)
    requires Ok(hash, ordered, t, v, -1) && |v.where| < t.cap
    ensures f < t.cap && t.cells[f].Free?
  {
    f := FreeBucket(t.cells, v.where, t.cap);
  }

  // ----- carrying a displaced entry to its new bucket -----

  /** The spare bucket holds an entry that would be at distance `probe` in bucket i; bucket f is free. */
  ghost predicate Carrying<K, V>(hash: K -> nat, ordered: bool, t: Table<K, V>, v: View<K, V>, i: nat, probe: nat,
                                 f: nat) {
    && Ok(hash, ordered, t, v, -1)
    && i < t.cap && f < t.cap && t.cells[t.cap].Used? && t.cells[i].Used? && t.cells[f].Free?
    && probe == Dist(t.cap, Home(hash, t.cap, t.cells[t.cap].entry.key), i) <= Probe(hash, t.cells, t.cap, i)
  }

  /** Moving on to the next bucket: the distances grow by one, the circle does not close, and f comes nearer. */
  lemma CarryNext<K, V>(hash: K -> nat, ordered: bool, t: Table<K, V>, v: View<K, V>, i: nat, probe: nat, f: nat)
    requires Carrying(hash, ordered, t, v, i, probe, f)
    ensures var n := Next(t.cap, i);
            && |t.cells| == t.cap + 1 && (ordered ==> t.links.WellFormed() && |t.links.prev| == t.cap + 1)
            && t.cells[t.cap].Used? && f < t.cap
            && probe + 1 == Dist(t.cap, Home(hash, t.cap, t.cells[t.cap].entry.key), n)
            && Prev(t.cap, n) == i && Dist(t.cap, n, f) < Dist(t.cap, i, f)
            && (t.cells[n].Used? ==> DecodedProbe(hash, t.cap, t.cells[n], n) == Probe(hash, t.cells, t.cap, n))
  {
    hide RobinHood, Located, Holds, OrderKeys, Linked, Tidy;
    var n := Next(t.cap, i);
    NoWrap(hash, t.cells, t.cap, i, f);
    if t.cells[n].Used? { DecodeIsProbe(hash, t.cells, t.cap, n); }
    if ordered { ListEnds(t.links, v.order, v.where); }
  }

  lemma CarryPlace<K, V>(hash: K -> nat, ordered: bool, t: Table<K, V>, v: View<K, V>, i: nat, probe: nat, f: nat)
    requires Carrying(hash, ordered, t, v, i, probe, f) && t.cells[Next(t.cap, i)].Free?
    ensures var n, x := Next(t.cap, i), t.cells[t.cap].entry.key;
            && (ordered ==> t.links.WellFormed() && |t.links.prev| == t.cap + 1)
            && Ok(hash, ordered, PlaceSpare(ordered, t, n, probe + 1), v.(where := v.where[x := n]), -1)
            && x in v.where && PlaceSpare(ordered, t, n, probe + 1).cells[t.cap].Free?
  {
    hide RobinHood, Located, Holds, OrderKeys, ListOk, Swapped, Copied;
    CarryNext(hash, ordered, t, v, i, probe, f);
    PlaceKeeps(hash, t.cells, t.cap, Next(t.cap, i), t.cells[t.cap].entry);
    PlaceSpareOk(hash, ordered, t, v, Next(t.cap, i));
    KeyPresent(hash, ordered, t, v, t.cap);
  }

  lemma CarrySwap<K, V>(hash: K -> nat, ordered: bool, t: Table<K, V>, v: View<K, V>, i: nat, probe: nat, f: nat)
    requires Carrying(hash, ordered, t, v, i, probe, f) && t.cells[Next(t.cap, i)].Used?
    requires probe + 1 > Probe(hash, t.cells, t.cap, Next(t.cap, i))
    ensures var n, x := Next(t.cap, i), t.cells[t.cap].entry.key;
            var y := t.cells[n].entry.key;
            && (ordered ==> t.links.WellFormed() && |t.links.prev| == t.cap + 1)
            && Carrying(hash, ordered, SwapSpare(ordered, t, n, probe + 1), v.(where := v.where[x := n][y := t.cap]),
                        n, Probe(hash, t.cells, t.cap, n), f)
            && x in v.where && y in v.where
  {
    hide RobinHood, Located, Holds, OrderKeys, ListOk, Swapped, Exchanged;
    CarryNext(hash, ordered, t, v, i, probe, f);
    PlaceKeeps(hash, t.cells, t.cap, Next(t.cap, i), t.cells[t.cap].entry);
    SwapSpareOk(hash, ordered, t, v, Next(t.cap, i));
    KeyPresent(hash, ordered, t, v, t.cap);
    KeyPresent(hash, ordered, t, v, Next(t.cap, i));
  }

  lemma CarrySkip<K, V>(hash: K -> nat, ordered: bool, t: Table<K, V>, v: View<K, V>, i: nat, probe: nat, f: nat)
    requires Carrying(hash, ordered, t, v, i, probe, f) && t.cells[Next(t.cap, i)].Used?
    requires probe + 1 <= Probe(hash, t.cells, t.cap, Next(t.cap, i))
    ensures Carrying(hash, ordered, t, v, Next(t.cap, i), probe + 1, f)
  {
    hide RobinHood, Located, Holds, OrderKeys, ListOk;
    CarryNext(hash, ordered, t, v, i, probe, f);
  }

  /** The displacement itself: afterwards the old entry of bucket i is being carried. */
  lemma StartCarrying<K, V>(hash: K -> nat, ordered: bool, t: Table<K, V>, v: View<K, V>, i: nat, e: Entry<K, V>)
    returns (f: nat)
    requires Ok(hash, ordered, t, v, -1) && i < t.cap && t.cells[i].Used? && t.cells[t.cap].Free? && e.key !in v.where
    requires |v.where| < t.cap
    requires var p := Dist(t.cap, Home(hash, t.cap, e.key), i);
             && Probe(hash, t.cells, t.cap, i) < p
             && (p > 0 ==> t.cells[Prev(t.cap, i)].Used? && Probe(hash, t.cells, t.cap, Prev(t.cap, i)) + 1 >= p)
    ensures ordered ==> t.links.WellFormed() && |t.links.prev| == t.cap + 1
    ensures ordered ==> var l := Swapped(Copied(t.links, i, t.cap), i, t.cap); l.head != -1 ==> l.tail != -1
    ensures var x := t.cells[i].entry.key;
            && x in v.where && DecodedProbe(hash, t.cap, t.cells[i], i) == Probe(hash, t.cells, t.cap, i)
            && Carrying(hash, ordered, Displace(ordered, t, i, Dist(t.cap, Home(hash, t.cap, e.key), i), e),
                     Insert(v.(where := v.where[x := t.cap]), e, i), i, Probe(hash, t.cells, t.cap, i), f)
  {
    hide RobinHood, Located, Holds, OrderKeys, ListOk, Displaced, Swapped, Copied;
    PlaceKeeps(hash, t.cells, t.cap, i, e);
    DisplaceOkTable(hash, ordered, t, v, i, e);
    KeyPresent(hash, ordered, t, v, i);
    DecodeIsProbe(hash, t.cells, t.cap, i);
    f := SpareLeavesFree(hash, ordered, t, v);
  }

  lemma FreshSpot<K, V>(hash: K -> nat, ordered: bool, t: Table<K, V>, v: View<K, V>, i: nat, e: Entry<K, V>)
    requires Ok(hash, ordered, t, v, -1) && i < t.cap && t.cells[i].Free? && e.key !in v.where
    requires var p := Dist(t.cap, Home(hash, t.cap, e.key), i);
             p > 0 ==> t.cells[Prev(t.cap, i)].Used? && Probe(hash, t.cells, t.cap, Prev(t.cap, i)) + 1 >= p
    ensures ordered ==> t.links.WellFormed() && t.links.IsBucket(i) && (t.links.head != -1 ==> t.links.tail != -1)
    ensures Ok(hash, ordered, Placed(ordered, t, i, Dist(t.cap, Home(hash, t.cap, e.key), i), e), Insert(v, e, i), -1)
  {
    hide RobinHood, Located, Holds, OrderKeys, ListOk, Placed;
    PlaceKeeps(hash, t.cells, t.cap, i, e);
    PlacedOk(hash, ordered, t, v, i, e);
  }

  // ----- vacating a bucket by backward shifts -----

  /** Every key is where it was, or one bucket further back. */
  ghost predicate ShiftedBack<K>(cap: nat, where: map<K, nat>, where0: map<K, nat>) {
    && where.Keys == where0.Keys
    && forall k :: k in where ==>
         where[k] < cap && where0[k] < cap && (where[k] == where0[k] || Next(cap, where[k]) == where0[k])
  }

  /** Keys beyond bucket `to`, seen from `start`, have not moved yet. */
  ghost predicate Untouched<K>(cap: nat, where: map<K, nat>, where0: map<K, nat>, start: nat, to: nat)
    requires start < cap && to < cap && ShiftedBack(cap, where, where0)
  {
    forall k :: k in where && Dist(cap, start, where[k]) > Dist(cap, start, to) ==> where[k] == where0[k]
  }

  /** Bucket `to` is being vacated, after shifts that began at `start`; bucket f is free. */
  ghost predicate Vacating<K, V>(hash: K -> nat, ordered: bool, t: Table<K, V>, v: View<K, V>, where0: map<K, nat>,
                                 start: nat, to: nat, f: nat) {
    && Ok(hash, ordered, t, v, to)
    && start < t.cap && to < t.cap && f < t.cap && t.cells[to].Used? && t.cells[f].Free? && t.cells[t.cap].Free?
    && Dist(t.cap, start, to) < Dist(t.cap, start, f)
    && ShiftedBack(t.cap, v.where, where0)
    && Untouched(t.cap, v.where, where0, start, to)
  }

  lemma StartVacating<K, V>(hash: K -> nat, ordered: bool, t: Table<K, V>, v: View<K, V>, i: nat) returns (f: nat)
    requires Ok(hash, ordered, t, v, -1) && i < t.cap && t.cells[i].Used? && t.cells[t.cap].Free? && |v.where| < t.cap
    ensures ordered ==> t.links.WellFormed() && t.links.IsBucket(i)
    ensures var v' := Removed(v, t.cells[i].entry.key);
            Vacating(hash, ordered, Unlink(ordered, t, i), v', v'.where, i, i, f)
    ensures t.cells[i].entry.key in v.where
    ensures |Removed(v, t.cells[i].entry.key).where| == |v.where| - 1
  {
    hide RobinHood, Located, Holds, OrderKeys, ListOk, Unlinked, Keep;
    f := SpareLeavesFree(hash, ordered, t, v);
    UnlinkOkTable(hash, ordered, t, v, i);
    KeyPresent(hash, ordered, t, v, i);
    RemoveSize(v.where, t.cells[i].entry.key);
    assert ShiftedBack(t.cap, v.where - {t.cells[i].entry.key}, v.where - {t.cells[i].entry.key}) by {
      NothingInSpare(t.cells, t.cap, v.where, -1);
    }
  }

  lemma RemoveSize<K, V>(m: map<K, V>, k: K)
    requires k in m
    ensures |m - {k}| == |m| - 1
  {
    assert m.Keys == (m - {k}).Keys + {k};
  }

  lemma NothingInSpare<K, V>(cells: seq<Bucket<K, V>>, cap: nat, where: map<K, nat>, stale: int)
    requires Located(cells, where, stale) && |cells| == cap + 1 && cells[cap].Free?
    ensures forall k :: k in where ==> where[k] < cap
  {
  }

  lemma VacateShape<K, V>(hash: K -> nat, ordered: bool, t: Table<K, V>, v: View<K, V>, where0: map<K, nat>,
                          start: nat, to: nat, f: nat)
    requires Vacating(hash, ordered, t, v, where0, start, to, f)
    ensures |t.cells| == t.cap + 1 && to < t.cap && start < t.cap
    ensures (ordered ==> t.links.WellFormed() && |t.links.prev| == t.cap + 1)
    ensures var from := Next(t.cap, to);
            t.cells[from].Used? ==> DecodedProbe(hash, t.cap, t.cells[from], from) == Probe(hash, t.cells, t.cap, from)
    ensures |v.where| == |where0|
  {
    hide RobinHood, Located, Holds, OrderKeys, Linked, Tidy;
    var from := Next(t.cap, to);
    if t.cells[from].Used? { DecodeIsProbe(hash, t.cells, t.cap, from); }
    if ordered { ListEnds(t.links, v.order, v.where); }
    assert |v.where.Keys| == |where0.Keys|;
  }

  lemma VacateShift<K, V>(hash: K -> nat, ordered: bool, t: Table<K, V>, v: View<K, V>, where0: map<K, nat>,
                          start: nat, to: nat, f: nat)
    requires Vacating(hash, ordered, t, v, where0, start, to, f)
    requires var from := Next(t.cap, to); t.cells[from].Used? && Probe(hash, t.cells, t.cap, from) > 0
    ensures ordered ==> t.links.WellFormed() && |t.links.prev| == t.cap + 1
    ensures var from := Next(t.cap, to);
            && Vacating(hash, ordered, Shift(ordered, t, to, Probe(hash, t.cells, t.cap, from)),
                     v.(where := v.where[t.cells[from].entry.key := to]), where0, start, from, f)
            && Dist(t.cap, start, from) == Dist(t.cap, start, to) + 1
  {
    hide RobinHood, Holds, OrderKeys, ListOk, Moved;
    var from := Next(t.cap, to);
    var k := t.cells[from].entry.key;
    assert from != f && Dist(t.cap, start, from) == Dist(t.cap, start, to) + 1;
    ShiftOkTable(hash, ordered, t, v, to);
    assert v.where[k] == from == where0[k];
    var where' := v.where[k := to];
    assert ShiftedBack(t.cap, where', where0);
    assert Untouched(t.cap, where', where0, start, from) by {
      forall k' | k' in where' && Dist(t.cap, start, where'[k']) > Dist(t.cap, start, from)
        ensures where'[k'] == where0[k']
      {
        assert k' != k && where'[k'] == v.where[k'];
      }
    }
  }

  lemma VacateDone<K, V>(hash: K -> nat, ordered: bool, t: Table<K, V>, v: View<K, V>, where0: map<K, nat>,
                         start: nat, to: nat, f: nat)
    requires Vacating(hash, ordered, t, v, where0, start, to, f)
    requires var from := Next(t.cap, to); t.cells[from].Used? ==> Probe(hash, t.cells, t.cap, from) == 0
    ensures Ok(hash, ordered, MarkFree(t, to), v, -1) && MarkFree(t, to).cells[t.cap].Free?
    ensures ShiftedBack(t.cap, v.where, where0)
  {
    hide RobinHood, Located, Holds, OrderKeys, ListOk;
    MarkFreeOk(hash, ordered, t, v, to);
  }

  // ----- scanning while deleting -----

  /** No entry in a bucket below i matches. */
  ghost predicate Scanned<K, V>(v: View<K, V>, i: nat, matches: (K, V) -> bool)
    requires v.where.Keys == v.contents.Keys
  {
    forall k :: k in v.where && v.where[k] < i ==> !matches(k, v.contents[k])
  }

  lemma ScanKeeps<K, V>(hash: K -> nat, ordered: bool, t: Table<K, V>, v: View<K, V>, i: nat, matches: (K, V) -> bool)
    requires Ok(hash, ordered, t, v, -1) && Scanned(v, i, matches) && i < t.cap
    requires t.cells[i].Used? ==> !matches(t.cells[i].entry.key, t.cells[i].entry.value)
    ensures Scanned(v, i + 1, matches)
  {
    hide RobinHood, ListOk, OrderKeys;
  }

  /** A deletion in bucket i moves no unscanned entry below i. */
  lemma ScanDeletes<K, V>(hash: K -> nat, ordered: bool, t: Table<K, V>, v: View<K, V>, v': View<K, V>, i: nat,
                          matches: (K, V) -> bool)
    requires Ok(hash, ordered, t, v, -1) && Scanned(v, i, matches) && i < t.cap && t.cells[i].Used?
    requires var k := t.cells[i].entry.key;
             v'.where.Keys == v'.contents.Keys && v'.contents == v.contents - {k} &&
             ShiftedBack(t.cap, v'.where, v.where - {k})
    ensures Scanned(v', i, matches)
  {
    hide RobinHood, ListOk, OrderKeys;
    KeyPresent(hash, ordered, t, v, i);
    forall k | k in v'.where && v'.where[k] < i ensures !matches(k, v'.contents[k]) {
      assert k in v.where && v.where[k] <= i;
      assert v.where[k] != i;
    }
  }

  /** The entries that do not match. */
  function Rejecting<K, V>(m: map<K, V>, matches: (K, V) -> bool): map<K, V> {
    map k | k in m && !matches(k, m[k]) :: m[k]
  }

  /** Only matching entries have been removed so far. */
  ghost predicate OnlyMatchesGone<K, V>(now: map<K, V>, before: map<K, V>, matches: (K, V) -> bool) {
    && (forall k :: k in now ==> k in before && now[k] == before[k])
    && (forall k :: k in before && k !in now ==> matches(k, before[k]))
  }

  lemma ScanDone<K, V>(v: View<K, V>, cap: nat, before: map<K, V>, matches: (K, V) -> bool)
    requires v.where.Keys == v.contents.Keys && Scanned(v, cap, matches)
    requires (forall k :: k in v.where ==> v.where[k] < cap)
    requires OnlyMatchesGone(v.contents, before, matches)
    ensures v.contents == Rejecting(before, matches)
  {
  }

  // ----- an empty table -----

  function Empty<K, V>(cap: nat): (t: Table<K, V>)
    ensures t.cap == cap && |t.cells| == cap + 1 && forall i :: 0 <= i <= cap ==> t.cells[i].Free?
  {
    var none := seq(cap + 1, _ => -1);
    Table(seq(cap + 1, _ => Free), Links(none, none, -1, -1), cap)
  }

  lemma EmptyOk<K, V>(hash: K -> nat, ordered: bool, cap: nat)
    requires cap > 0
    ensures Ok(hash, ordered, Empty<K, V>(cap), View(map[], [], map[]), -1)
  {
  }

  lemma ScanStart<K(!new), V>(v: View<K, V>, before: View<K, V>, matches: (K, V) -> bool, t: Table<K, V>,
                              hash: K -> nat, ordered: bool)
    requires v == before
    requires t.cap > 0 ==> Ok(hash, ordered, t, v, -1)
    requires t.cap == 0 ==> v == View(map[], [], map[])
    ensures v.where.Keys == v.contents.Keys && Scanned(v, 0, matches)
    ensures OnlyMatchesGone(v.contents, before.contents, matches)
    ensures v.order == Keep(before.order, v.contents.Keys) && |v.where| == |v.contents|
  {
    ViewOrder(hash, ordered, t, v);
    assert |v.where.Keys| == |v.contents.Keys|;
  }

  lemma GoneStep<K, V>(v: View<K, V>, v': View<K, V>, before: View<K, V>, k: K, matches: (K, V) -> bool)
    requires OnlyMatchesGone(v.contents, before.contents, matches) && v.order == Keep(before.order, v.contents.Keys)
    requires k in v.contents && matches(k, v.contents[k]) && v.where.Keys == v.contents.Keys
    requires v'.contents == v.contents - {k} && v'.order == Keep(v.order, v.where.Keys - {k})
    ensures OnlyMatchesGone(v'.contents, before.contents, matches) && v'.order == Keep(before.order, v'.contents.Keys)
    ensures v'.contents != before.contents
  {
    KeepTwice(before.order, v.contents.Keys, v'.contents.Keys);
    assert v.where.Keys - {k} == v'.contents.Keys;
    assert k in before.contents && k !in v'.contents;
  }

  lemma AllBelow<K, V>(hash: K -> nat, ordered: bool, t: Table<K, V>, v: View<K, V>)
    requires t.cap > 0 ==> Ok(hash, ordered, t, v, -1) && t.cells[t.cap].Free?
    requires t.cap == 0 ==> v == View(map[], [], map[])
    ensures forall k :: k in v.where ==> v.where[k] < t.cap
  {
    if t.cap > 0 { NothingInSpare(t.cells, t.cap, v.where, -1); }
  }

  // ----- rehashing -----

  /** The entries among the given keys. */
  ghost function Among<K, V>(m: map<K, V>, keys: set<K>): map<K, V> {
    map k | k in m && k in keys :: m[k]
  }

  lemma AmongSize<K, V>(m: map<K, V>, keys: set<K>)
    ensures |Among(m, keys)| <= |m|
  {
    SubsetSize(Among(m, keys).Keys, m.Keys);
    assert |m.Keys| == |m| && |Among(m, keys).Keys| == |Among(m, keys)|;
  }

  lemma AmongAdd<K, V>(m: map<K, V>, keys: set<K>, k: K)
    requires k in m
    ensures Among(m, keys)[k := m[k]] == Among(m, keys + {k})
  {
  }

  lemma AmongAll<K, V>(m: map<K, V>, keys: set<K>)
    requires m.Keys <= keys
    ensures Among(m, keys) == m
  {
  }

  ghost function Elements<K>(s: seq<K>): set<K> { set k | k in s }

  /** Following the old list: the j-th key's bucket, its entry, and the reference to the next. */
  lemma OldListAt<K, V>(hash: K -> nat, t: Table<K, V>, v: View<K, V>, j: nat)
    requires Ok(hash, true, t, v, -1) && j < |v.order|
    ensures (forall k :: k in v.order ==> k in v.where)
    ensures var r := RefAt(v.order, v.where, j);
            && 0 <= r < |t.cells| && |t.cells| == |t.links.next| && t.cells[r].Used?
            && t.links.next[r] == RefAt(v.order, v.where, j + 1)
            && v.order[j] in v.contents && t.cells[r].entry == Entry(v.order[j], v.contents[v.order[j]])
            && v.order[j] !in v.order[..j]
  {
    hide RobinHood, Located, Tidy;
    assert LinkedAt(t.links, v.order, v.where, j);
    assert v.order[j] in v.order;
  }

  lemma OldListEnds<K, V>(hash: K -> nat, t: Table<K, V>, v: View<K, V>)
    requires Ok(hash, true, t, v, -1)
    ensures (forall k :: k in v.order ==> k in v.where) && t.links.head == RefAt(v.order, v.where, 0)
    ensures v.contents.Keys == Elements(v.order)
  {
    hide RobinHood, Located, Tidy;
  }

  ghost function Below<K>(where: map<K, nat>, i: nat): set<K> {
    set k | k in where && where[k] < i
  }

  /** Scanning the old buckets: bucket i adds its key, a free one nothing. */
  lemma OldBucketAt<K, V>(hash: K -> nat, ordered: bool, t: Table<K, V>, v: View<K, V>, i: nat)
    requires Ok(hash, ordered, t, v, -1) && i < |t.cells|
    ensures t.cells[i].Free? ==> Below(v.where, i + 1) == Below(v.where, i)
    ensures t.cells[i].Used? ==> var e := t.cells[i].entry;
              && e.key in v.contents && v.contents[e.key] == e.value && e.key !in Below(v.where, i)
              && Below(v.where, i + 1) == Below(v.where, i) + {e.key}
  {
    hide RobinHood, OrderKeys, ListOk;
  }

  lemma NoneAmong<K, V>(m: map<K, V>)
    ensures Among(m, Elements([])) == map[] && |Among(m, Elements([]))| == 0
  {
  }

  lemma NoneBelow<K, V>(m: map<K, V>, where: map<K, nat>)
    ensures Among(m, Below(where, 0)) == map[] && |Among(m, Below(where, 0))| == 0
  {
  }

  lemma NotAmong<K, V>(m: map<K, V>, keys: set<K>, k: K)
    requires k !in keys
    ensures k !in Among(m, keys)
  {
  }

  lemma AmongGrows<K, V>(m: map<K, V>, order: seq<K>, j: nat)
    requires j < |order| && order[j] in m && order[j] !in order[..j]
    ensures order[..j + 1] == order[..j] + [order[j]] && order[j] !in Among(m, Elements(order[..j]))
    ensures Among(m, Elements(order[..j]))[order[j] := m[order[j]]] == Among(m, Elements(order[..j + 1]))
  {
    assert order[..j + 1] == order[..j] + [order[j]];
    assert Elements(order[..j + 1]) == Elements(order[..j]) + {order[j]};
  }

  lemma AllKeysBelow<K, V>(hash: K -> nat, ordered: bool, t: Table<K, V>, v: View<K, V>)
    requires Ok(hash, ordered, t, v, -1) && |t.cells| == t.cap + 1 && t.cells[t.cap].Free?
    ensures v.contents.Keys <= Below(v.where, t.cap)
  {
    NothingInSpare(t.cells, t.cap, v.where, -1);
  }

  // ----- the ends of the list -----

  lemma ListedEnds<K, V>(hash: K -> nat, t: Table<K, V>, v: View<K, V>)
    requires Ok(hash, true, t, v, -1) && |v.where| > 0 && t.cells[t.cap].Free?
    ensures |v.order| > 0 && |t.cells| == t.cap + 1
    ensures 0 <= t.links.head < t.cap && t.cells[t.links.head].Used? && t.cells[t.links.head].entry.key == v.order[0]
    ensures 0 <= t.links.tail < t.cap && t.cells[t.links.tail].Used?
    ensures t.cells[t.links.tail].entry.key == v.order[|v.order| - 1]
    ensures v.order[0] in v.contents && t.cells[t.links.head].entry.value == v.contents[v.order[0]]
    ensures var k := v.order[|v.order| - 1]; k in v.contents && t.cells[t.links.tail].entry.value == v.contents[k]
  {
    hide RobinHood, Tidy;
    var k :| k in v.where;
    assert k in v.order;
    assert v.order[0] in v.order && v.order[|v.order| - 1] in v.order;
  }

  lemma KeepEnds<K, V>(hash: K -> nat, ordered: bool, t: Table<K, V>, v: View<K, V>)
    requires Ok(hash, ordered, t, v, -1) && |v.order| > 0
    ensures Keep(v.order, v.where.Keys - {v.order[0]}) == v.order[1..]
    ensures Keep(v.order, v.where.Keys - {v.order[|v.order| - 1]}) == v.order[..|v.order| - 1]
  {
    hide Keep;
    KeepWithout(v.order, v.where, 0);
    KeepWithout(v.order, v.where, |v.order| - 1);
  }
}
