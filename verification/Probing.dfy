/**
 The bucket array of AK/HashTable.h as a value: cyclic probing, the probe-length byte,
 the Robin Hood ordering of probe lengths, and what single bucket writes do to them.
 */
module Probing {

  datatype Entry<K, V> = Entry(key: K, value: V)

  /** A bucket; `state` is the byte that encodes the probe length of a used bucket. */
  datatype Bucket<K, V> = Free | Used(state: nat, entry: Entry<K, V>)

  // ----- cyclic positions -----

  function Home<K>(hash: K -> nat, cap: nat, k: K): (i: nat)
    requires cap > 0
    ensures i < cap
  {
    hash(k) % cap
  }

  function Next(cap: nat, i: nat): (j: nat)
    requires i < cap
    ensures j < cap
  {
    if i + 1 == cap then 0 else i + 1
  }

  function Prev(cap: nat, i: nat): (j: nat)
    requires i < cap
    ensures j < cap && Next(cap, j) == i
  {
    if i == 0 then cap - 1 else i - 1
  }

  /** Steps from bucket `from` to bucket `to`, going forward. */
  function Dist(cap: nat, from: nat, to: nat): (d: nat)
    requires from < cap && to < cap
    ensures d < cap
  {
    if to < from then cap + to - from else to - from
  }

  // ----- the probe-length byte -----

  function StateFor(probe: nat): nat {
    if probe > 253 then 255 else probe + 1
  }

  /** used_bucket_probe_length: decode the byte, or recompute when it is saturated. */
  function DecodedProbe<K, V>(hash: K -> nat, cap: nat, b: Bucket<K, V>, i: nat): int
    requires b.Used? && i < cap
  {
    if b.state == 255 then Dist(cap, Home(hash, cap, b.entry.key), i) else b.state - 1
  }

  /** Distance of a used bucket from the home of its entry. */
  function Probe<K, V>(hash: K -> nat, cells: seq<Bucket<K, V>>, cap: nat, i: nat): nat
    requires i < cap <= |cells| && cells[i].Used?
  {
    Dist(cap, Home(hash, cap, cells[i].entry.key), i)
  }

  ghost predicate StatesOk<K, V>(hash: K -> nat, cells: seq<Bucket<K, V>>, cap: nat)
    requires cap <= |cells|
  {
    forall i :: 0 <= i < cap && cells[i].Used? ==> cells[i].state == StateFor(Probe(hash, cells, cap, i))
  }

  /** Bucket i's successor is at most one step poorer than bucket i. */
  ghost predicate OrderedAt<K, V>(hash: K -> nat, cells: seq<Bucket<K, V>>, cap: nat, i: nat)
    requires i < cap <= |cells|
  {
    var n := Next(cap, i);
    cells[n].Used? && Probe(hash, cells, cap, n) > 0 ==>
      cells[i].Used? && Probe(hash, cells, cap, i) + 1 >= Probe(hash, cells, cap, n)
  }

  ghost predicate Ordered<K, V>(hash: K -> nat, cells: seq<Bucket<K, V>>, cap: nat)
    requires cap <= |cells|
  {
    forall i :: 0 <= i < cap ==> OrderedAt(hash, cells, cap, i)
  }

  ghost predicate RobinHood<K, V>(hash: K -> nat, cells: seq<Bucket<K, V>>, cap: nat) {
    0 < cap <= |cells| && StatesOk(hash, cells, cap) && Ordered(hash, cells, cap)
  }

  /** The byte decodes to the true distance, also above 253. */
  lemma DecodeIsProbe<K, V>(hash: K -> nat, cells: seq<Bucket<K, V>>, cap: nat, i: nat)
    requires RobinHood(hash, cells, cap) && i < cap && cells[i].Used?
    ensures DecodedProbe(hash, cap, cells[i], i) == Probe(hash, cells, cap, i)
  {
  }

  /** Everything between an entry's home and its bucket is used and at least as poor as its distance from that home. */
  lemma {:induction false} RunUsed<K, V>(hash: K -> nat, cells: seq<Bucket<K, V>>, cap: nat, p: nat, j: nat)
    requires RobinHood(hash, cells, cap) && p < cap && j < cap && cells[p].Used?
    requires var home := Home(hash, cap, cells[p].entry.key); Dist(cap, home, j) <= Dist(cap, home, p)
    ensures cells[j].Used?
    ensures Probe(hash, cells, cap, j) >= Dist(cap, Home(hash, cap, cells[p].entry.key), j)
    decreases var home := Home(hash, cap, cells[p].entry.key); Dist(cap, home, p) - Dist(cap, home, j)
  {
    if j != p {
      RunUsed(hash, cells, cap, p, Next(cap, j));
      assert OrderedAt(hash, cells, cap, j);
    }
  }

  // ----- single writes -----

  /** Placing an entry on a free bucket, or on one that is no poorer, keeps the order. */
  lemma PlaceKeeps<K, V>(hash: K -> nat, cells: seq<Bucket<K, V>>, cap: nat, i: nat, e: Entry<K, V>)
    requires RobinHood(hash, cells, cap) && i < cap
    requires var p := Dist(cap, Home(hash, cap, e.key), i);
             && (cells[i].Used? ==> Probe(hash, cells, cap, i) <= p)
             && (p > 0 ==> cells[Prev(cap, i)].Used? && Probe(hash, cells, cap, Prev(cap, i)) + 1 >= p)
    ensures RobinHood(hash, cells[i := Used(StateFor(Dist(cap, Home(hash, cap, e.key), i)), e)], cap)
  {
    var cells' := cells[i := Used(StateFor(Dist(cap, Home(hash, cap, e.key), i)), e)];
    forall j | 0 <= j < cap ensures OrderedAt(hash, cells', cap, j) {
      assert OrderedAt(hash, cells, cap, j);
    }
  }

  /** Moving a displaced entry one bucket back keeps the order, even while its old bucket still holds it. */
  lemma ShiftKeeps<K, V>(hash: K -> nat, cells: seq<Bucket<K, V>>, cap: nat, to: nat)
    requires RobinHood(hash, cells, cap) && to < cap && cells[to].Used?
    requires cells[Next(cap, to)].Used? && Probe(hash, cells, cap, Next(cap, to)) > 0
    ensures var p := Probe(hash, cells, cap, Next(cap, to));
            RobinHood(hash, cells[to := Used(StateFor(p - 1), cells[Next(cap, to)].entry)], cap)
  {
    var n := Next(cap, to);
    var p := Probe(hash, cells, cap, n);
    var cells' := cells[to := Used(StateFor(p - 1), cells[n].entry)];
    assert OrderedAt(hash, cells, cap, to);
    assert Probe(hash, cells', cap, to) == p - 1;
    forall j | 0 <= j < cap ensures OrderedAt(hash, cells', cap, j) {
      assert OrderedAt(hash, cells, cap, j);
    }
  }

  /** Freeing a bucket keeps the order when its successor is free or at home. */
  lemma FreeKeeps<K, V>(hash: K -> nat, cells: seq<Bucket<K, V>>, cap: nat, i: nat)
    requires RobinHood(hash, cells, cap) && i < cap
    requires cells[Next(cap, i)].Used? ==> Probe(hash, cells, cap, Next(cap, i)) == 0
    ensures RobinHood(hash, cells[i := Free], cap)
  {
    var cells' := cells[i := Free];
    forall j | 0 <= j < cap ensures OrderedAt(hash, cells', cap, j) {
      assert OrderedAt(hash, cells, cap, j);
    }
  }

  // ----- where the entries are -----

  /** `where` lists exactly the used buckets, except for `stale`, whose content is about to be overwritten. */
  ghost predicate Located<K, V>(cells: seq<Bucket<K, V>>, where: map<K, nat>, stale: int) {
    && (forall k :: k in where ==>
          where[k] < |cells| && where[k] != stale && cells[where[k]].Used? && cells[where[k]].entry.key == k)
    && (forall i :: 0 <= i < |cells| && i != stale && cells[i].Used? ==>
          cells[i].entry.key in where && where[cells[i].entry.key] == i)
  }

  lemma {:induction false} UsedKeys<K, V>(cells: seq<Bucket<K, V>>, where: map<K, nat>, n: nat) returns (keys: set<K>)
    requires Located(cells, where, -1) && n <= |cells|
    requires forall i :: 0 <= i < n ==> cells[i].Used?
    ensures |keys| == n && keys <= where.Keys
    ensures forall k :: k in keys ==> where[k] < n
  {
    if n == 0 {
      keys := {};
    } else {
      keys := UsedKeys(cells, where, n - 1);
      keys := keys + {cells[n - 1].entry.key};
    }
  }

  lemma SubsetSize<K>(s: set<K>, t: set<K>)
    requires s <= t
    ensures |s| <= |t|
  {
    assert t == s + (t - s);
  }

  /** Fewer entries than buckets leaves a free bucket. */
  lemma FreeBucket<K, V>(cells: seq<Bucket<K, V>>, where: map<K, nat>, cap: nat) returns (f: nat)
    requires Located(cells, where, -1) && |where| < cap <= |cells|
    ensures f < cap && cells[f].Free?
  {
    if forall i :: 0 <= i < cap ==> cells[i].Used? {
      var keys := UsedKeys(cells, where, cap);
      SubsetSize(keys, where.Keys);
      assert false;
    }
    f :| 0 <= f < cap && !cells[f].Used?;
  }

  /**
   The buckets from `home` up to but excluding i are used and do not hold k; if `poor`, none is richer than its
   distance.
   */
  ghost predicate Passed<K, V>(hash: K -> nat, cells: seq<Bucket<K, V>>, cap: nat, home: nat, i: nat, k: K, poor: bool)
    requires cap <= |cells| && home < cap && i < cap
  {
    forall j :: 0 <= j < cap && Dist(cap, home, j) < Dist(cap, home, i) ==>
      cells[j].Used? && cells[j].entry.key != k && (poor ==> Probe(hash, cells, cap, j) >= Dist(cap, home, j))
  }

  lemma PassedStart<K, V>(hash: K -> nat, cells: seq<Bucket<K, V>>, cap: nat, home: nat, k: K, poor: bool)
    requires cap <= |cells| && home < cap
    ensures Dist(cap, home, home) == 0 && Passed(hash, cells, cap, home, home, k, poor)
  {
  }

  lemma PassedPrev<K, V>(hash: K -> nat, cells: seq<Bucket<K, V>>, cap: nat, home: nat, i: nat, k: K)
    requires cap <= |cells| && home < cap && i < cap && Dist(cap, home, i) > 0
    requires Passed(hash, cells, cap, home, i, k, true)
    ensures cells[Prev(cap, i)].Used? && Probe(hash, cells, cap, Prev(cap, i)) + 1 >= Dist(cap, home, i)
  {
    assert Dist(cap, home, Prev(cap, i)) == Dist(cap, home, i) - 1;
  }

  /** A probe that has not hit the free bucket f moves on without closing the circle. */
  lemma PassedNext<K, V>(hash: K -> nat, cells: seq<Bucket<K, V>>, cap: nat, home: nat, i: nat, k: K, poor: bool,
                         f: nat)
    requires cap <= |cells| && home < cap && i < cap && f < cap && cells[f].Free?
    requires Passed(hash, cells, cap, home, i, k, poor)
    requires cells[i].Used? && cells[i].entry.key != k && (poor ==> Probe(hash, cells, cap, i) >= Dist(cap, home, i))
    ensures Dist(cap, home, Next(cap, i)) == Dist(cap, home, i) + 1
    ensures Passed(hash, cells, cap, home, Next(cap, i), k, poor)
  {
    assert Dist(cap, home, f) > Dist(cap, home, i);
  }

  /** A key that no bucket from its home up to a free or richer bucket carries is nowhere. */
  lemma Absent<K, V>(hash: K -> nat, cells: seq<Bucket<K, V>>, cap: nat, where: map<K, nat>, k: K, i: nat, poor: bool)
    requires RobinHood(hash, cells, cap) && Located(cells, where, -1) && i < cap
    requires k in where ==> where[k] < cap
    requires Passed(hash, cells, cap, Home(hash, cap, k), i, k, poor)
    requires cells[i].Used? ==> cells[i].entry.key != k && Probe(hash, cells, cap, i) < Dist(cap, Home(hash, cap, k), i)
    ensures k !in where
  {
    if k in where {
      var p, home := where[k], Home(hash, cap, k);
      if Dist(cap, home, i) <= Dist(cap, home, p) {
        RunUsed(hash, cells, cap, p, i);
      }
    }
  }

  /** The bucket before a poor enough one cannot close the circle while a bucket is free. */
  lemma NoWrap<K, V>(hash: K -> nat, cells: seq<Bucket<K, V>>, cap: nat, i: nat, f: nat)
    requires RobinHood(hash, cells, cap) && i < cap && f < cap && cells[f].Free? && cells[i].Used?
    ensures Probe(hash, cells, cap, i) < cap - 1
  {
    if Probe(hash, cells, cap, i) == cap - 1 {
      RunUsed(hash, cells, cap, i, f);
    }
  }
}
