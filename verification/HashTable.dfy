/**
 AK/HashTable.h: the Robin Hood hash table, unordered or ordered, as a class whose
 methods mutate the bucket storage in probe and shift loops.  Its abstract value is
 `view`: a map from keys to values and the order of first insertion.
 */
module HashTable {
  import opened Wrappers
  import opened Probing
  import opened OrderLinks
  import opened TableSteps

  datatype HashSetResult = InsertedNewEntry | ReplacedExistingEntry | KeptExistingEntry

  datatype Spot = FreeSpot | SameKey | Richer

  class HashTable<K(==, !new), V> {
    const hash: K -> nat
    const isOrdered: bool
    var table: Table<K, V>
    var size: nat
    ghost var view: View<K, V>

    ghost predicate Valid()
      reads this
    {
      if table.cap == 0 then
        size == 0 && view == View(map[], [], map[]) && table.cells == [Free]
      else
        && Ok(hash, isOrdered, table, view, -1)
        && table.cells[table.cap].Free?
        && size == |view.where| < table.cap
    }

    constructor (hash: K -> nat, isOrdered: bool)
      ensures Valid() && view == View(map[], [], map[]) && this.hash == hash && this.isOrdered == isOrdered
    {
      this.hash, this.isOrdered := hash, isOrdered;
      table := Table([Free], Links([-1], [-1], -1, -1), 0);
      size := 0;
      view := View(map[], [], map[]);
    }

    // ----- lookup -----

    /** lookup_with_hash: the bucket holding the key, or -1. */
    method Lookup(k: K) returns (r: int)
      requires Valid()
      ensures k in view.contents ==>
                0 <= r < table.cap && table.cells[r].Used? && table.cells[r].entry == Entry(k, view.contents[k])
      ensures k !in view.contents ==> r == -1
      ensures r == if k in view.where then view.where[k] else -1
    {
      hide RobinHood, ListOk, OrderKeys, Passed, Dist;
      if size == 0 {
        return -1;
      }
      var cap := table.cap;
      ghost var f := FreeBucket(table.cells, view.where, cap);
      ghost var home := Home(hash, cap, k);
      var i: nat := Home(hash, cap, k);
      PassedStart(hash, table.cells, cap, home, k, false);
      while true
        invariant i < cap && Passed(hash, table.cells, cap, home, i, k, false)
        decreases cap - Dist(cap, home, i)
      {
        if table.cells[i].Free? {
          Absent(hash, table.cells, cap, view.where, k, i, false);
          return -1;
        }
        if table.cells[i].entry.key == k {
          return i;
        }
        PassedNext(hash, table.cells, cap, home, i, k, false, f);
        i := Next(cap, i);
      }
    }

    // ----- insertion -----

    /** The probe of write_value: the first bucket that is free, holds the key, or is richer. */
    method FindSpot(k: K) returns (i: nat, probe: nat, spot: Spot)
      requires Valid() && table.cap > 0
      ensures i < table.cap && probe == Dist(table.cap, Home(hash, table.cap, k), i)
      ensures spot.FreeSpot? ==> table.cells[i].Free? && k !in view.where
      ensures spot.SameKey? ==> table.cells[i].Used? && table.cells[i].entry.key == k
      ensures spot.Richer? ==>
                table.cells[i].Used? && k !in view.where && Probe(hash, table.cells, table.cap, i) < probe
      ensures probe > 0 ==>
                table.cells[Prev(table.cap, i)].Used? &&
                Probe(hash, table.cells, table.cap, Prev(table.cap, i)) + 1 >= probe
    {
      hide RobinHood, ListOk, OrderKeys, Passed;
      var cap := table.cap;
      ghost var f := FreeBucket(table.cells, view.where, cap);
      ghost var home := Home(hash, cap, k);
      i, probe := Home(hash, cap, k), 0;
      PassedStart(hash, table.cells, cap, home, k, true);
      while true
        invariant i < cap && probe == Dist(cap, home, i) && Passed(hash, table.cells, cap, home, i, k, true)
        decreases cap - probe
      {
        if probe > 0 { PassedPrev(hash, table.cells, cap, home, i, k); }
        if table.cells[i].Free? {
          Absent(hash, table.cells, cap, view.where, k, i, true);
          return i, probe, FreeSpot;
        }
        if table.cells[i].entry.key == k {
          return i, probe, SameKey;
        }
        var target := DecodedProbe(hash, cap, table.cells[i], i);
        assert target == Probe(hash, table.cells, cap, i) by { DecodeIsProbe(hash, table.cells, cap, i); }
        if probe > target {
          Absent(hash, table.cells, cap, view.where, k, i, true);
          return i, probe, Richer;
        }
        PassedNext(hash, table.cells, cap, home, i, k, true, f);
        i := Next(cap, i);
        probe := probe + 1;
      }
    }

    /** The new entry takes the bucket of a richer one, which is carried on. */
    method TakeOver(e: Entry<K, V>, i: nat, probe: nat)
      requires Valid() && size + 1 < table.cap && i < table.cap && e.key !in view.where
      requires table.cells[i].Used? && Probe(hash, table.cells, table.cap, i) < probe
      requires probe == Dist(table.cap, Home(hash, table.cap, e.key), i)
      requires table.cells[Prev(table.cap, i)].Used?
      requires Probe(hash, table.cells, table.cap, Prev(table.cap, i)) + 1 >= probe
      modifies this
      ensures Valid() && table.cap == old(table.cap)
      ensures view.contents == old(view.contents)[e.key := e.value] && view.order == old(view.order) + [e.key]
    {
      hide Ok, Displace, Probe, Dist, Home;
      ViewSize(hash, isOrdered, table, view);
      ghost var f := StartCarrying(hash, isOrdered, table, view, i, e);
      var target := DecodedProbe(hash, table.cap, table.cells[i], i);
      ghost var x := table.cells[i].entry.key;
      table := Displace(isOrdered, table, i, probe, e);
      view := Insert(view.(where := view.where[x := table.cap]), e, i);
      size := size + 1;
      CarryOn(i, target, f);
    }

    /** write_value: insert, replace or keep; the order of first insertion is unaffected by replacement. */
    method WriteValue(e: Entry<K, V>, replace: bool) returns (result: HashSetResult)
      requires Valid() && size + 1 < table.cap
      modifies this
      ensures Valid() && table.cap == old(table.cap)
      ensures e.key in old(view.contents) ==> view.order == old(view.order)
      ensures e.key in old(view.contents) && replace ==>
                result == ReplacedExistingEntry && view.contents == old(view.contents)[e.key := e.value]
      ensures e.key in old(view.contents) && !replace ==>
                result == KeptExistingEntry && view.contents == old(view.contents)
      ensures e.key !in old(view.contents) ==>
                && result == InsertedNewEntry && view.contents == old(view.contents)[e.key := e.value]
                && view.order == old(view.order) + [e.key]
      ensures size == |view.contents|
    {
      hide Ok, Probe, Dist, Home;
      ViewSize(hash, isOrdered, table, view);
      var i, probe, spot := FindSpot(e.key);
      if spot.SameKey? {
        KeyPresent(hash, isOrdered, table, view, i);
        if replace {
          ReplacedOk(hash, isOrdered, table, view, i, e);
          table := Replaced(table, i, e);
          view := view.(contents := view.contents[e.key := e.value]);
          result := ReplacedExistingEntry;
        } else {
          result := KeptExistingEntry;
        }
      } else if spot.FreeSpot? {
        FreshSpot(hash, isOrdered, table, view, i, e);
        table := Placed(isOrdered, table, i, probe, e);
        view := Insert(view, e, i);
        size := size + 1;
        result := InsertedNewEntry;
      } else {
        TakeOver(e, i, probe);
        result := InsertedNewEntry;
      }
      ViewSize(hash, isOrdered, table, view);
    }

    /** Find a free bucket for the carried entry, swapping with richer buckets along the way. */
    method CarryOn(start: nat, length: nat, ghost f: nat)
      requires Carrying(hash, isOrdered, table, view, start, length, f)
      modifies this`table, this`view
      ensures table.cap == old(table.cap) && Ok(hash, isOrdered, table, view, -1) && table.cells[table.cap].Free?
      ensures view.contents == old(view.contents) && view.order == old(view.order)
      ensures view.where.Keys == old(view.where.Keys)
    {
      hide Ok, Carrying, SwapSpare, PlaceSpare, Probe, Home;
      var i: nat, probe: nat := start, length;
      var cap := table.cap;
      CarryNext(hash, isOrdered, table, view, i, probe, f);
      while table.cells[Next(cap, i)].Used?
        invariant table.cap == cap && |table.cells| == cap + 1 && i < cap && f < cap
        invariant Carrying(hash, isOrdered, table, view, i, probe, f)
        invariant view.contents == old(view.contents) && view.order == old(view.order)
        invariant view.where.Keys == old(view.where.Keys)
        decreases Dist(cap, i, f)
      {
        CarryNext(hash, isOrdered, table, view, i, probe, f);
        var n := Next(cap, i);
        var target := DecodedProbe(hash, cap, table.cells[n], n);
        if probe + 1 > target {
          CarrySwap(hash, isOrdered, table, view, i, probe, f);
          ghost var x, y := table.cells[cap].entry.key, table.cells[n].entry.key;
          table := SwapSpare(isOrdered, table, n, probe + 1);
          view := view.(where := view.where[x := n][y := cap]);
          i, probe := n, target;
        } else {
          CarrySkip(hash, isOrdered, table, view, i, probe, f);
          i, probe := n, probe + 1;
        }
      }
      CarryNext(hash, isOrdered, table, view, i, probe, f);
      CarryPlace(hash, isOrdered, table, view, i, probe, f);
      ghost var x := table.cells[cap].entry.key;
      table := PlaceSpare(isOrdered, table, Next(cap, i), probe + 1);
      view := view.(where := view.where[x := Next(cap, i)]);
    }

    // ----- deletion -----

    /** delete_bucket: the entry disappears, later entries of the run move one bucket back. */
    method DeleteBucket(i: nat)
      requires Valid() && i < table.cap && table.cells[i].Used?
      modifies this
      ensures Valid() && table.cap == old(table.cap) && size == old(size) - 1
      ensures var k := old(table.cells[i].entry.key);
              && k in old(view.contents) && view.contents == old(view.contents) - {k}
              && view.order == Keep(old(view.order), old(view.where.Keys) - {k})
              && ShiftedBack(table.cap, view.where, old(view.where) - {k})
    {
      hide Ok, Vacating, Unlink, Shift, Probe, ShiftedBack, Keep;
      ViewSize(hash, isOrdered, table, view);
      ghost var f := StartVacating(hash, isOrdered, table, view, i);
      ghost var gone := Removed(view, table.cells[i].entry.key);
      var cap := table.cap;
      table := Unlink(isOrdered, table, i);
      view := gone;
      size := size - 1;
      var to := i;
      VacateShape(hash, isOrdered, table, view, gone.where, i, to, f);
      while table.cells[Next(cap, to)].Used? && DecodedProbe(hash, cap, table.cells[Next(cap, to)], Next(cap, to)) != 0
        invariant table.cap == cap && |table.cells| == cap + 1 && to < cap && size == old(size) - 1
        invariant Vacating(hash, isOrdered, table, view, gone.where, i, to, f)
        invariant view.contents == gone.contents && view.order == gone.order
        decreases cap - Dist(cap, i, to)
      {
        VacateShape(hash, isOrdered, table, view, gone.where, i, to, f);
        VacateShift(hash, isOrdered, table, view, gone.where, i, to, f);
        var from := Next(cap, to);
        ghost var k := table.cells[from].entry.key;
        table := Shift(isOrdered, table, to, DecodedProbe(hash, cap, table.cells[from], from));
        view := view.(where := view.where[k := to]);
        to := from;
      }
      VacateShape(hash, isOrdered, table, view, gone.where, i, to, f);
      VacateDone(hash, isOrdered, table, view, gone.where, i, to, f);
      table := MarkFree(table, to);
    }

    /** remove: true exactly when the key was there; nothing else changes. */
    method Remove(k: K) returns (removed: bool)
      requires Valid()
      modifies this
      ensures Valid() && table.cap == old(table.cap)
      ensures removed == (k in old(view.contents))
      ensures view.contents == old(view.contents) - {k}
      ensures view.order == Keep(old(view.order), view.contents.Keys)
    {
      hide Ok, Keep, ShiftedBack;
      var r := Lookup(k);
      if table.cap > 0 { ViewSize(hash, isOrdered, table, view); }
      ViewOrder(hash, isOrdered, table, view);
      if r == -1 {
        assert view.contents - {k} == view.contents;
        return false;
      }
      DeleteBucket(r);
      ViewSize(hash, isOrdered, table, view);
      return true;
    }

    /** A matching bucket under the scan goes. */
    method DeleteMatching(i: nat, matches: (K, V) -> bool, ghost before: View<K, V>)
      requires Valid() && i < table.cap && |table.cells| == table.cap + 1 && table.cells[i].Used?
      requires matches(table.cells[i].entry.key, table.cells[i].entry.value) && Scanned(view, i, matches)
      requires view.where.Keys == view.contents.Keys && OnlyMatchesGone(view.contents, before.contents, matches)
      requires view.order == Keep(before.order, view.contents.Keys)
      modifies this
      ensures Valid() && table.cap == old(table.cap) && size == |view.contents| == old(size) - 1
      ensures |table.cells| == table.cap + 1
      ensures view.where.Keys == view.contents.Keys && Scanned(view, i, matches)
      ensures OnlyMatchesGone(view.contents, before.contents, matches) && view.contents != before.contents
      ensures view.order == Keep(before.order, view.contents.Keys)
    {
      hide Ok, Keep, Scanned, ShiftedBack, OnlyMatchesGone;
      KeyPresent(hash, isOrdered, table, view, i);
      ghost var t, v, k := table, view, table.cells[i].entry.key;
      DeleteBucket(i);
      ViewSize(hash, isOrdered, table, view);
      ScanDeletes(hash, isOrdered, t, v, view, i, matches);
      GoneStep(v, view, before, k, matches);
    }

    /** remove_all_matching: exactly the matching entries go, although deletions move entries under the scan. */
    method RemoveAllMatching(matches: (K, V) -> bool) returns (removedAny: bool)
      requires Valid()
      modifies this
      ensures Valid() && table.cap == old(table.cap)
      ensures view.contents == Rejecting(old(view.contents), matches)
      ensures forall k :: k in view.contents <==> k in old(view.contents) && !matches(k, old(view.contents)[k])
      ensures view.order == Keep(old(view.order), view.contents.Keys)
      ensures removedAny == (view.contents != old(view.contents))
    {
      hide Ok, Keep, Scanned, OnlyMatchesGone, Rejecting;
      removedAny := false;
      var i, cap := 0, table.cap;
      ghost var before := view;
      ScanStart(view, before, matches, table, hash, isOrdered);
      while i < cap
        invariant Valid() && table.cap == cap && i <= cap && size == |view.contents|
        invariant view.where.Keys == view.contents.Keys && Scanned(view, i, matches)
        invariant OnlyMatchesGone(view.contents, before.contents, matches)
        invariant view.order == Keep(before.order, view.contents.Keys)
        invariant removedAny == (view.contents != before.contents)
        decreases size + (cap - i)
      {
        ViewSize(hash, isOrdered, table, view);
        if table.cells[i].Free? || !matches(table.cells[i].entry.key, table.cells[i].entry.value) {
          ScanKeeps(hash, isOrdered, table, view, i, matches);
          i := i + 1;
        } else {
          DeleteMatching(i, matches, before);
          removedAny := true;
          // an entry shifted into bucket i is examined next
          if table.cells[i].Free? {
            ScanKeeps(hash, isOrdered, table, view, i, matches);
            i := i + 1;
          }
        }
      }
      AllBelow(hash, isOrdered, table, view);
      ScanDone(view, cap, before.contents, matches);
      RejectingMeaning(before.contents, matches);
    }

    // ----- growth -----

    /** try_rehash: more buckets for the same entries, each written once, in the same order when ordered. */
    method Rehash(wanted: nat) returns (ghost moved: nat)
      requires Valid()
      modifies this
      ensures Valid() && view.contents == old(view.contents) && size == old(size)
      ensures isOrdered ==> view.order == old(view.order)
      ensures table.cap >= wanted && table.cap >= old(table.cap) + 8 && moved == old(size)
    {
      hide Ok, Among, Below, Elements, Empty, Keep;
      var atLeast := if wanted > table.cap + 8 then wanted else table.cap + 8;
      // the allocator may round the size up
      var newCap :| newCap >= atLeast;
      var t := table;
      ghost var v := view;
      if t.cap > 0 { ViewSize(hash, isOrdered, t, v); }
      EmptyOk<K, V>(hash, isOrdered, newCap);
      table, size, view := Empty(newCap), 0, View(map[], [], map[]);
      moved := 0;
      if t.cap == 0 {
        return;
      }
      if isOrdered {
        moved := CopyInOrder(t, v);
      } else {
        moved := CopyBuckets(t, v);
      }
    }

    /** Ordered: follow the old list from its head. */
    method CopyInOrder(t: Table<K, V>, ghost v: View<K, V>) returns (ghost moved: nat)
      requires isOrdered && Ok(hash, true, t, v, -1) && |v.contents| < t.cap
      requires Valid() && table.cap >= t.cap + 8 && view == View(map[], [], map[])
      modifies this
      ensures Valid() && table.cap == old(table.cap) && view.contents == v.contents && view.order == v.order
      ensures size == |v.contents| == moved
    {
      hide Ok, Among, Elements;
      var it := t.links.head;
      ghost var j := 0;
      moved := 0;
      OldListEnds(hash, t, v);
      NoneAmong(v.contents);
      assert v.order[..0] == [];
      while it != -1
        invariant Valid() && table.cap == old(table.cap) && j <= |v.order| && it == RefAt(v.order, v.where, j)
        invariant view.contents == Among(v.contents, Elements(v.order[..j])) && view.order == v.order[..j]
        invariant size == |view.contents| == moved
        decreases |v.order| - j
      {
        OldListAt(hash, t, v, j);
        AmongSize(v.contents, Elements(v.order[..j]));
        AmongGrows(v.contents, v.order, j);
        var result := WriteValue(t.cells[it].entry, false);
        moved := moved + 1;
        it := t.links.next[it];
        j := j + 1;
      }
      assert v.order[..j] == v.order;
      AmongAll(v.contents, Elements(v.order));
    }

    /** Unordered: scan the old buckets. */
    method CopyBuckets(t: Table<K, V>, ghost v: View<K, V>) returns (ghost moved: nat)
      requires Ok(hash, isOrdered, t, v, -1) && |v.contents| < t.cap && |t.cells| == t.cap + 1 && t.cells[t.cap].Free?
      requires Valid() && table.cap >= t.cap + 8 && view == View(map[], [], map[])
      modifies this
      ensures Valid() && table.cap == old(table.cap) && view.contents == v.contents
      ensures size == |v.contents| == moved
    {
      hide Ok, Among, Below;
      NoneBelow(v.contents, v.where);
      moved := 0;
      for i := 0 to t.cap
        invariant Valid() && table.cap == old(table.cap)
        invariant view.contents == Among(v.contents, Below(v.where, i)) && size == |view.contents| == moved
      {
        OldBucketAt(hash, isOrdered, t, v, i);
        if t.cells[i].Used? {
          AmongSize(v.contents, Below(v.where, i));
          AmongAdd(v.contents, Below(v.where, i), t.cells[i].entry.key);
          NotAmong(v.contents, Below(v.where, i), t.cells[i].entry.key);
          var result := WriteValue(t.cells[i].entry, false);
          moved := moved + 1;
        }
      }
      AllKeysBelow(hash, isOrdered, t, v);
      AmongAll(v.contents, Below(v.where, t.cap));
    }

    predicate ShouldGrow()
      reads this
    {
      (size + 1) * 100 >= table.cap * 80
    }

    /**
     try_set: after growing if necessary, one entry is written; a free bucket always remains.  It grows, by sixty
     percent at least, exactly when one more entry would fill eighty percent of the buckets.
     */
    method TrySet(e: Entry<K, V>, replace: bool) returns (result: HashSetResult, ghost moved: nat)
      requires Valid()
      modifies this
      ensures Valid() && size == |view.contents|
      ensures var grows := (|old(view.contents)| + 1) * 100 >= old(table.cap) * 80;
              && (if grows then table.cap >= old(table.cap) * 160 / 100 && table.cap >= old(table.cap) + 8
                  else table.cap == old(table.cap))
              && moved == if grows then |old(view.contents)| else 0
      ensures result == if e.key !in old(view.contents) then InsertedNewEntry
                        else if replace then ReplacedExistingEntry else KeptExistingEntry
      ensures view.contents == if e.key in old(view.contents) && !replace then old(view.contents)
                               else old(view.contents)[e.key := e.value]
      ensures isOrdered ==>
                view.order == if e.key in old(view.contents) then old(view.order) else old(view.order) + [e.key]
    {
      hide Ok;
      if table.cap > 0 { ViewSize(hash, isOrdered, table, view); }
      moved := 0;
      if ShouldGrow() {
        moved := Rehash(table.cap * (100 + 60) / 100);
      }
      result := WriteValue(e, replace);
    }

    /**
     A run of sets on a new table.  However often it grows and whatever the allocator rounds up to, the entries
     written again by all the rehashes together are at most 3.5 times the keys plus 2.5.
     */
    method SetAll(entries: seq<Entry<K, V>>, replace: bool) returns (ghost moved: nat)
      requires Valid() && table.cap == 0
      modifies this
      ensures Valid() && 2 * moved <= 7 * |view.contents| + 5
      ensures forall i :: 0 <= i < |entries| ==> entries[i].key in view.contents
    {
      hide Valid;
      moved := 0;
      Sizes();
      RepaidStart();
      for n := 0 to |entries|
        invariant Valid() && size == |view.contents|
        invariant Repaid(moved, table.cap, size)
        invariant forall i :: 0 <= i < n ==> entries[i].key in view.contents
      {
        ghost var before, cap := view.contents, table.cap;
        Sizes();
        var result, more := TrySet(entries[n], replace);
        KeysGrow(before, view.contents);
        RepaidStep(moved, cap, |before|, more, table.cap, size);
        moved := moved + more;
      }
    }

    lemma Sizes()
      requires Valid()
      ensures size == |view.contents| <= table.cap && |table.cells| == table.cap + 1
    {
      hide Ok;
      if table.cap > 0 { ViewSize(hash, isOrdered, table, view); }
    }

    /** try_ensure_capacity: the requested number of values fits without further growth. */
    method EnsureCapacity(capacity: nat)
      requires Valid()
      modifies this
      ensures Valid() && view.contents == old(view.contents) && (isOrdered ==> view.order == old(view.order))
      ensures capacity * 100 < table.cap * 80 && table.cap >= old(table.cap)
      ensures table.cap > old(table.cap) <==> capacity * 100 / 80 + 1 > old(table.cap)
    {
      var required := capacity * 100 / 80 + 1;
      if required > table.cap {
        ghost var moved := Rehash(required);
      }
    }

    /** take_first: the oldest entry leaves the table. */
    method TakeFirst() returns (e: Entry<K, V>)
      requires Valid() && isOrdered && size > 0
      modifies this
      ensures Valid() && |old(view.order)| > 0 && e.key == old(view.order)[0] && view.order == old(view.order)[1..]
      ensures e.key in old(view.contents) && e.value == old(view.contents)[e.key]
      ensures view.contents == old(view.contents) - {e.key} && table.cap == old(table.cap)
    {
      hide Ok, Keep, ShiftedBack;
      ListedEnds(hash, table, view);
      e := table.cells[table.links.head].entry;
      KeepEnds(hash, true, table, view);
      DeleteBucket(table.links.head);
    }

    /** take_last: the newest entry leaves the table. */
    method TakeLast() returns (e: Entry<K, V>)
      requires Valid() && isOrdered && size > 0
      modifies this
      ensures var n := |old(view.order)| - 1;
              Valid() && n >= 0 && e.key == old(view.order)[n] && view.order == old(view.order)[..n]
      ensures e.key in old(view.contents) && e.value == old(view.contents)[e.key]
      ensures view.contents == old(view.contents) - {e.key} && table.cap == old(table.cap)
    {
      hide Ok, Keep, ShiftedBack;
      ListedEnds(hash, table, view);
      e := table.cells[table.links.tail].entry;
      KeepEnds(hash, true, table, view);
      DeleteBucket(table.links.tail);
    }

    // ----- whole runs -----

    /** The table shows the model; only an ordered table keeps the order. */
    ghost predicate Shows(m: Model<K, V>)
      reads this
    {
      Valid() && view.contents == m.contents && (isOrdered ==> view.order == m.order)
    }

    /** One operation and its reply, or nothing when a VERIFY stops it. */
    method Apply(op: Op<K, V>, ghost m: Model<K, V>) returns (reply: Option<Reply<K, V>>)
      requires Shows(m) && (op.TakeFirst? || op.TakeLast? ==> isOrdered)
      modifies this
      ensures reply.Some? <==> After(m, op).Some?
      ensures reply.Some? ==> Shows(After(m, op).value) && reply.value == ReplyTo(m, op)
      ensures if Grows(m, op, old(table.cap)) then table.cap > old(table.cap) else table.cap == old(table.cap)
    {
      hide Valid, Keep, Rejecting;
      Sizes();
      match op {
        case Set(e, replace) =>
          var result, moved := TrySet(e, replace);
          reply := Some(Wrote(result));
        case Remove(k) =>
          var removed := Remove(k);
          reply := Some(Existed(removed));
        case RemoveMatching(matches) =>
          var any := RemoveAllMatching(matches);
          reply := Some(RemovedAny(any));
        case Reserve(capacity) =>
          EnsureCapacity(capacity);
          reply := Some(Reserved);
        case Find(k) =>
          var i := Lookup(k);
          reply := Some(Found(if i == -1 then None else Some(table.cells[i].entry.value)));
        case _ =>
          reply := ApplyTake(op, m);
      }
    }

    method ApplyTake(op: Op<K, V>, ghost m: Model<K, V>) returns (reply: Option<Reply<K, V>>)
      requires Shows(m) && isOrdered && (op.TakeFirst? || op.TakeLast?)
      modifies this
      ensures reply.Some? <==> After(m, op).Some?
      ensures reply.Some? ==> Shows(After(m, op).value) && reply.value == ReplyTo(m, op)
      ensures table.cap == old(table.cap)
    {
      hide Ok, Keep, Rejecting;
      EmptyOrder();
      if table.cap > 0 { ViewSize(hash, isOrdered, table, view); }
      if size == 0 {
        return None;
      }
      var e;
      if op.TakeFirst? {
        e := TakeFirst();
      } else {
        e := TakeLast();
      }
      reply := Some(Taken(e.key, Some(e.value)));
    }

    lemma EmptyOrder()
      requires Valid() && isOrdered
      ensures size == 0 ==> view.order == []
    {
      if table.cap > 0 {
        assert forall k :: k in view.order ==> k in view.where;
        assert size == 0 ==> forall i :: 0 <= i < |view.order| ==> view.order[i] in view.where;
      }
    }

    /**
     Any sequence of operations acts on the table as it acts on a plain map and a list of keys,
     and replies the same; it stops in a VERIFY exactly when the model has no entry to take.
     The buckets are reallocated exactly when some operation finds too little room.
     */
    method Run(ops: seq<Op<K, V>>) returns (replies: Option<seq<Reply<K, V>>>)
      requires Valid() && forall i :: 0 <= i < |ops| && (ops[i].TakeFirst? || ops[i].TakeLast?) ==> isOrdered
      modifies this
      ensures match AfterAll(Model(old(view.contents), old(view.order)), ops)
              case Stopped => replies == None
              case Ran(m, rs) => replies == Some(rs) && Shows(m)
      ensures table.cap >= old(table.cap)
      ensures table.cap == old(table.cap) <==>
              Roomy(Model(old(view.contents), old(view.order)), ops, old(table.cap))
    {
      hide Ok, After, ReplyTo, Grows, Roomy;
      ghost var start, cap := Model(view.contents, view.order), table.cap;
      RoomyStart(start, ops, cap);
      replies := Some([]);
      assert ops[..|ops|] == ops;
      for i := 0 to |ops|
        invariant AfterAll(start, ops[..i]).Ran? && replies == Some(AfterAll(start, ops[..i]).replies)
        invariant Shows(AfterAll(start, ops[..i]).model)
        invariant table.cap >= cap && (table.cap == cap <==> Roomy(start, ops[..i], cap))
      {
        AfterStep(start, ops, i);
        RoomyStep(start, ops, i, cap);
        var reply := Apply(ops[i], AfterAll(start, ops[..i]).model);
        if reply.None? {
          AfterStop(start, ops, i + 1, cap);
          return None;
        }
        replies := Some(replies.value + [reply.value]);
      }
    }
  }

  lemma RejectingMeaning<K, V>(m: map<K, V>, matches: (K, V) -> bool)
    ensures forall k :: k in Rejecting(m, matches) <==> k in m && !matches(k, m[k])
  {
  }

  /** The entries written again so far, against the buckets and against the keys. */
  ghost predicate Repaid(moved: nat, cap: nat, keys: nat) {
    moved <= 2 * cap && 2 * moved <= 7 * keys + 5 && (cap == 0 || cap >= 8)
  }

  lemma RepaidStart()
    ensures Repaid(0, 0, 0)
  {
  }

  lemma RepaidStep(moved: nat, cap: nat, keys: nat, more: nat, cap': nat, keys': nat)
    requires Repaid(moved, cap, keys) && keys <= cap && keys <= keys'
    requires var grows := (keys + 1) * 100 >= cap * 80;
             && (if grows then cap' >= cap * 160 / 100 && cap' >= cap + 8 else cap' == cap)
             && more == if grows then keys else 0
    ensures Repaid(moved + more, cap', keys')
  {
  }

  lemma KeysGrow<K, V>(before: map<K, V>, after: map<K, V>)
    requires before.Keys <= after.Keys
    ensures |before| <= |after|
  {
    assert after.Keys == before.Keys + (after.Keys - before.Keys);
    assert |after.Keys| == |before.Keys| + |after.Keys - before.Keys|;
  }

  datatype Op<!K, !V> =
    | Set(e: Entry<K, V>, replace: bool)
    | Remove(k: K)
    | RemoveMatching(matches: (K, V) -> bool)
    | Reserve(capacity: nat)
    | Find(k: K)
    | TakeFirst
    | TakeLast

  datatype Reply<K, V> =
    | Wrote(result: HashSetResult)
    | Existed(removed: bool)
    | RemovedAny(any: bool)
    | Reserved
    | Found(value: Option<V>)
    | Taken(key: K, taken: Option<V>)

  /** A plain map, and its keys in order of first insertion. */
  datatype Model<K, V> = Model(contents: map<K, V>, order: seq<K>)

  datatype Trace<K, V> = Stopped | Ran(model: Model<K, V>, replies: seq<Reply<K, V>>)

  function Outcome<K, V>(m: map<K, V>, e: Entry<K, V>, replace: bool): HashSetResult {
    if e.key !in m then InsertedNewEntry else if replace then ReplacedExistingEntry else KeptExistingEntry
  }

  function WithEntry<K, V>(m: map<K, V>, e: Entry<K, V>, replace: bool): map<K, V> {
    if e.key in m && !replace then m else m[e.key := e.value]
  }

  function WithKey<K, V>(order: seq<K>, m: map<K, V>, k: K): seq<K> {
    if k in m then order else order + [k]
  }

  function Get<K, V>(m: map<K, V>, k: K): Option<V> {
    if k in m then Some(m[k]) else None
  }

  function Restricted<K(==), V>(m: Model<K, V>, contents: map<K, V>): Model<K, V> {
    Model(contents, Keep(m.order, contents.Keys))
  }

  /** What an operation does to a plain map with its order; nothing when there is no entry to take. */
  function After<K(==), V>(m: Model<K, V>, op: Op<K, V>): Option<Model<K, V>> {
    var n := |m.order| - 1;
    match op
    case Set(e, replace) => Some(Model(WithEntry(m.contents, e, replace), WithKey(m.order, m.contents, e.key)))
    case Remove(k) => Some(Restricted(m, m.contents - {k}))
    case RemoveMatching(matches) => Some(Restricted(m, Rejecting(m.contents, matches)))
    case Reserve(_) => Some(m)
    case Find(_) => Some(m)
    case TakeFirst => if n < 0 then None else Some(Model(m.contents - {m.order[0]}, m.order[1..]))
    case TakeLast => if n < 0 then None else Some(Model(m.contents - {m.order[n]}, m.order[..n]))
  }

  /** What the operation replies. */
  ghost function ReplyTo<K, V>(m: Model<K, V>, op: Op<K, V>): Reply<K, V>
    requires After(m, op).Some?
  {
    match op
    case Set(e, replace) => Wrote(Outcome(m.contents, e, replace))
    case Remove(k) => Existed(k in m.contents)
    case RemoveMatching(matches) => RemovedAny(Rejecting(m.contents, matches) != m.contents)
    case Reserve(_) => Reserved
    case Find(k) => Found(Get(m.contents, k))
    case TakeFirst => Taken(m.order[0], Get(m.contents, m.order[0]))
    case TakeLast => var k := m.order[|m.order| - 1]; Taken(k, Get(m.contents, k))
  }

  ghost function AfterAll<K, V>(m: Model<K, V>, ops: seq<Op<K, V>>): Trace<K, V> {
    if ops == [] then Ran(m, [])
    else
      var before, op := AfterAll(m, ops[..|ops| - 1]), ops[|ops| - 1];
      if before.Stopped? || After(before.model, op).None? then Stopped
      else Ran(After(before.model, op).value, before.replies + [ReplyTo(before.model, op)])
  }

  lemma AfterStep<K, V>(m: Model<K, V>, ops: seq<Op<K, V>>, i: nat)
    requires i < |ops|
    ensures AfterAll(m, ops[..i + 1]) ==
              var before := AfterAll(m, ops[..i]);
              if before.Stopped? || After(before.model, ops[i]).None? then Stopped
              else Ran(After(before.model, ops[i]).value, before.replies + [ReplyTo(before.model, ops[i])])
  {
    assert ops[..i + 1][..i] == ops[..i];
  }

  /** An operation after which more buckets are needed: try_set looks at the size before it looks for the key. */
  predicate Grows<K, V>(m: Model<K, V>, op: Op<K, V>, cap: nat) {
    match op
    case Set(_, _) => (|m.contents| + 1) * 100 >= cap * 80
    case Reserve(capacity) => capacity * 100 / 80 + 1 > cap
    case _ => false
  }

  /** No operation of the run needs more buckets. */
  ghost predicate Roomy<K, V>(m: Model<K, V>, ops: seq<Op<K, V>>, cap: nat) {
    ops == [] ||
    var before, op := AfterAll(m, ops[..|ops| - 1]), ops[|ops| - 1];
    Roomy(m, ops[..|ops| - 1], cap) && (before.Ran? ==> !Grows(before.model, op, cap))
  }

  lemma RoomyStart<K, V>(m: Model<K, V>, ops: seq<Op<K, V>>, cap: nat)
    ensures Roomy(m, ops[..0], cap)
  {
  }

  lemma RoomyStep<K, V>(m: Model<K, V>, ops: seq<Op<K, V>>, i: nat, cap: nat)
    requires i < |ops|
    ensures Roomy(m, ops[..i + 1], cap) <==>
              var before := AfterAll(m, ops[..i]);
              Roomy(m, ops[..i], cap) && (before.Ran? ==> !Grows(before.model, ops[i], cap))
  {
    assert ops[..i + 1][..i] == ops[..i];
  }

  /** Nothing happens behind the stop. */
  lemma {:induction false} AfterStop<K, V>(m: Model<K, V>, ops: seq<Op<K, V>>, i: nat, cap: nat)
    requires i <= |ops| && AfterAll(m, ops[..i]).Stopped?
    ensures AfterAll(m, ops).Stopped? && (Roomy(m, ops, cap) <==> Roomy(m, ops[..i], cap))
    decreases |ops| - i
  {
    if i == |ops| {
      assert ops[..i] == ops;
    } else {
      AfterStep(m, ops, i);
      RoomyStep(m, ops, i, cap);
      AfterStop(m, ops, i + 1, cap);
    }
  }

  /** In every set of the run fewer than n keys are there before, and no more than n are reserved. */
  ghost predicate Within<K, V>(m: Model<K, V>, ops: seq<Op<K, V>>, n: nat) {
    forall i: nat :: i < |ops| ==>
      var before := AfterAll(m, ops[..i]);
      && (before.Ran? && ops[i].Set? ==> |before.model.contents| < n)
      && (ops[i].Reserve? ==> ops[i].capacity <= n)
  }

  /** The promise of ensure_capacity: after reserving n, entries up to the n-th never reallocate. */
  lemma {:induction false} ReserveSuffices<K, V>(m: Model<K, V>, ops: seq<Op<K, V>>, n: nat, cap: nat)
    requires n * 100 < cap * 80 && Within(m, ops, n)
    ensures Roomy(m, ops, cap)
  {
    if ops != [] {
      var k := |ops| - 1;
      forall i: nat | i < k ensures ops[..k][..i] == ops[..i] && ops[..k][i] == ops[i] {
      }
      ReserveSuffices(m, ops[..k], n, cap);
      RoomyStep(m, ops, k, cap);
      assert ops[..k + 1] == ops;
    }
  }

  /** Replacing an entry when n keys are there can reallocate: 6 keys in the 8 buckets that suffice for 6. */
  lemma ReplacingExample()
    ensures var m := Model(map[1 := 0, 2 := 0, 3 := 0, 4 := 0, 5 := 0, 6 := 0], [1, 2, 3, 4, 5, 6]);
            var op := Set(Entry(1, 1), true);
            && |m.contents| == 6 && !Grows(m, Reserve(6), 8) && Grows(m, op, 8)
            && After(m, op).Some? && After(m, op).value.contents.Keys == m.contents.Keys
  {
    var contents := map[1 := 0, 2 := 0, 3 := 0, 4 := 0, 5 := 0, 6 := 0];
    assert contents.Keys == {1, 2, 3, 4, 5, 6};
    assert |contents| == |contents.Keys| == 6;
  }
}
