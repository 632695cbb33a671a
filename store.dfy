/**
 * The bounded paste store of src/io.rs: a `LinkedHashMap<String, Bytes>` (a map that
 * remembers insertion order) behind a lock, and a capacity, `BUFFER_SIZE`. A store
 * first drops entries from the oldest end until at most `capacity` remain and then
 * inserts; a lookup does not reorder anything, so eviction is first in, first out.
 *
 * `Entries` is the value of the map; `PasteStore` is the shared object that the
 * source's functions update under the lock, each call one atomic step.
 */
module Store {
  import opened Wrappers
  import opened Utf8
  import opened Ids

  /** A `LinkedHashMap`: its keys oldest first, and the content under each key. */
  datatype Entries = Entries(order: seq<Id>, contents: map<Id, Bytes>)

  predicate Distinct(s: seq<Id>) {
    forall i, j :: 0 <= i < j < |s| ==> s[i] != s[j]
  }

  /** Each key is listed once, and exactly the listed keys have content. */
  predicate WellFormed(e: Entries) {
    Distinct(e.order) &&
    (forall id :: id in e.contents ==> id in e.order) &&
    (forall id :: id in e.order ==> id in e.contents)
  }

  /** `LinkedHashMap::len`: the number of listed keys. */
  function Len(e: Entries): nat {
    |e.order|
  }

  /** In a well-formed map, `len` is the number of keys with content. */
  lemma LenCountsKeys(e: Entries)
    requires WellFormed(e)
    ensures Len(e) == |e.contents.Keys|
  {
    assert e.contents.Keys == set id | id in e.order;
    DistinctCard(e.order);
  }

  /** A list without repeats has as many different elements as it is long. */
  lemma {:induction false} DistinctCard(s: seq<Id>)
    requires Distinct(s)
    ensures |set id | id in s| == |s|
  {
    if s != [] {
      var rest := s[1..];
      assert Distinct(rest) by {
        forall i, j | 0 <= i < j < |rest| ensures rest[i] != rest[j] {
          assert rest[i] == s[i + 1] && rest[j] == s[j + 1];
        }
      }
      DistinctCard(rest);
      assert (set id | id in s) == (set id | id in rest) + {s[0]};
      assert s[0] !in (set id | id in rest) by {
        forall i | 0 <= i < |rest| ensures rest[i] != s[0] {
          assert rest[i] == s[i + 1];
        }
      }
    }
  }

  function Min(a: nat, b: nat): nat {
    if a <= b then a else b
  }

  /** `LinkedHashMap::get`. */
  function Get(e: Entries, id: Id): (r: Option<Bytes>)
    ensures r.Some? <==> id in e.contents
    ensures r.Some? ==> r.value == e.contents[id]
  {
    if id in e.contents then Some(e.contents[id]) else None
  }

  /** `LinkedHashMap::pop_front` on a non-empty map: the oldest entry goes. */
  function PopFront(e: Entries): (r: Entries)
    requires |e.order| > 0
    ensures r.order == e.order[1..]
    ensures Get(r, e.order[0]) == None
    ensures forall id :: id != e.order[0] ==> Get(r, id) == Get(e, id)
  {
    Entries(e.order[1..], e.contents - {e.order[0]})
  }

  /** `k` successive `pop_front` calls. */
  function DropOldest(e: Entries, k: nat): (r: Entries)
    requires k <= |e.order|
    ensures r.order == e.order[k..]
    ensures forall id :: id in r.contents <==> id in e.contents && id !in e.order[..k]
    ensures forall id :: id in r.contents ==> r.contents[id] == e.contents[id]
  {
    if k == 0 then e
    else
      var r := PopFront(DropOldest(e, k - 1));
      assert e.order[..k] == e.order[..k - 1] + [e.order[k - 1]];
      r
  }

  /**
   * `purge_old`: when there are more than `capacity` entries, pop the surplus off the
   * oldest end. What is left is the newest `min(len, capacity)` entries, in their
   * order and with their contents; with no surplus nothing changes.
   */
  function Purge(e: Entries, capacity: nat): (r: Entries)
    ensures Len(r) == Min(Len(e), capacity)
    ensures r.order == e.order[Len(e) - Len(r)..]
    ensures forall id :: id in r.contents <==> id in e.contents && id !in e.order[..Len(e) - Len(r)]
    ensures forall id :: id in r.contents ==> r.contents[id] == e.contents[id]
    ensures Len(e) <= capacity ==> r == e
  {
    if Len(e) > capacity then DropOldest(e, Len(e) - capacity) else e
  }

  /** `s` without the occurrences of `x`, the rest in order. */
  function Remove(s: seq<Id>, x: Id): (r: seq<Id>)
    ensures forall y :: y in r <==> y in s && y != x
    ensures x !in s ==> r == s
    ensures |r| <= |s|
  {
    if s == [] then []
    else if s[0] == x then Remove(s[1..], x)
    else [s[0]] + Remove(s[1..], x)
  }

  /**
   * `LinkedHashMap::insert`: the key gets the content and becomes the newest; if it
   * was present it is moved, not duplicated.
   */
  function Insert(e: Entries, id: Id, content: Bytes): (r: Entries)
    ensures Get(r, id) == Some(content)
    ensures |r.order| > 0 && r.order[|r.order| - 1] == id
    ensures forall x :: x in r.order <==> x in e.order || x == id
    ensures forall other :: other != id ==> Get(r, other) == Get(e, other)
  {
    Entries(Remove(e.order, id) + [id], e.contents[id := content])
  }

  /** `store_paste`: purge first, then insert. */
  function AfterStore(e: Entries, capacity: nat, id: Id, content: Bytes): (r: Entries)
    ensures Get(r, id) == Some(content)
    ensures |r.order| > 0 && r.order[|r.order| - 1] == id
    ensures Len(r) <= capacity + 1
    ensures forall other :: other != id ==> Get(r, other) == Get(Purge(e, capacity), other)
  {
    Insert(Purge(e, capacity), id, content)
  }

  /** The outcome of a run of `store_paste` calls, in order. */
  function StoreAll(e: Entries, capacity: nat, writes: seq<(Id, Bytes)>): Entries
    decreases |writes|
  {
    if writes == [] then e
    else StoreAll(AfterStore(e, capacity, writes[0].0, writes[0].1), capacity, writes[1..])
  }

  /** The keys of a run of stores, in order. */
  function IdsOf(writes: seq<(Id, Bytes)>): (ids: seq<Id>)
    ensures |ids| == |writes| && forall i :: 0 <= i < |writes| ==> ids[i] == writes[i].0
  {
    if writes == [] then [] else [writes[0].0] + IdsOf(writes[1..])
  }

  /** The last `n` elements of `s`. */
  function Newest(s: seq<Id>, n: nat): seq<Id>
    requires n <= |s|
  {
    s[|s| - n..]
  }

  // ---------------------------------------------------------------------------
  // purge_old

  /** Purging keeps the map well formed. */
  lemma PurgeWellFormed(e: Entries, capacity: nat)
    requires WellFormed(e)
    ensures WellFormed(Purge(e, capacity))
  {
    var r := Purge(e, capacity);
    DropWellFormed(e, Len(e) - Len(r), r);
  }

  /** Dropping the oldest `d` entries of a well-formed map leaves a well-formed map. */
  lemma DropWellFormed(e: Entries, d: nat, r: Entries)
    requires WellFormed(e) && d <= |e.order| && r.order == e.order[d..]
    requires forall id :: id in r.contents <==> id in e.contents && id !in e.order[..d]
    ensures WellFormed(r)
  {
    forall i, j | 0 <= i < j < |r.order| ensures r.order[i] != r.order[j] {
      assert r.order[i] == e.order[d + i] && r.order[j] == e.order[d + j];
    }
    assert e.order == e.order[..d] + r.order;
    forall id | id in r.order ensures id in r.contents {
      var j :| 0 <= j < |r.order| && r.order[j] == id;
      assert e.order[d + j] == id;
      forall i | 0 <= i < d ensures e.order[..d][i] != id {
        assert e.order[..d][i] == e.order[i];
      }
    }
  }

  // ---------------------------------------------------------------------------
  // insert

  /** Removing a key from a list that holds it once cuts out exactly its position. */
  lemma {:induction false} RemoveAt(s: seq<Id>, k: nat)
    requires Distinct(s) && k < |s|
    ensures Remove(s, s[k]) == s[..k] + s[k + 1..]
  {
    var t := s[1..];
    DistinctSuffix(s, 1);
    if k > 0 {
      assert s[0] != s[k] && t[k - 1] == s[k];
      assert Remove(s, s[k]) == [s[0]] + Remove(t, s[k]);
      RemoveAt(t, k - 1);
      DropAtCons(s, k);
    } else {
      assert s[0] !in t by {
        forall j | 0 <= j < |t| ensures t[j] != s[0] {
          assert t[j] == s[j + 1];
        }
      }
      assert Remove(s, s[0]) == Remove(t, s[0]) == t;
    }
  }

  lemma DropAtCons(s: seq<Id>, k: nat)
    requires 0 < k < |s|
    ensures [s[0]] + (s[1..][..k - 1] + s[1..][k..]) == s[..k] + s[k + 1..]
  {
    var l, r := [s[0]] + (s[1..][..k - 1] + s[1..][k..]), s[..k] + s[k + 1..];
    assert |l| == |r|;
    forall i | 0 <= i < |l| ensures l[i] == r[i] {
      if i < k {
        assert r[i] == s[i];
      } else {
        assert r[i] == s[i + 1];
      }
    }
  }

  lemma {:induction false} RemoveDistinct(s: seq<Id>, x: Id)
    requires Distinct(s)
    ensures Distinct(Remove(s, x))
  {
    if s != [] {
      assert Distinct(s[1..]) by {
        forall i, j | 0 <= i < j < |s| - 1 ensures s[1..][i] != s[1..][j] {
          assert s[1..][i] == s[i + 1] && s[1..][j] == s[j + 1];
        }
      }
      RemoveDistinct(s[1..], x);
      if s[0] != x {
        var t := Remove(s[1..], x);
        assert s[0] !in s[1..] by {
          forall j | 0 <= j < |s| - 1 ensures s[1..][j] != s[0] {
            assert s[1..][j] == s[j + 1];
          }
        }
        forall i, j | 0 <= i < j < |t| + 1 ensures ([s[0]] + t)[i] != ([s[0]] + t)[j] {
          if i == 0 {
            assert ([s[0]] + t)[j] == t[j - 1];
          } else {
            assert ([s[0]] + t)[i] == t[i - 1] && ([s[0]] + t)[j] == t[j - 1];
          }
        }
      }
    }
  }

  lemma InsertWellFormed(e: Entries, id: Id, content: Bytes)
    requires WellFormed(e)
    ensures WellFormed(Insert(e, id, content))
  {
    var t := Remove(e.order, id);
    RemoveDistinct(e.order, id);
    var o := t + [id];
    forall i, j | 0 <= i < j < |o| ensures o[i] != o[j] {
      if j == |t| {
        assert o[i] == t[i] && t[i] in t;
      } else {
        assert o[i] == t[i] && o[j] == t[j];
      }
    }
  }

  // ---------------------------------------------------------------------------
  // store_paste

  /** A store keeps the map well formed. */
  lemma StoreWellFormed(e: Entries, capacity: nat, id: Id, content: Bytes)
    requires WellFormed(e)
    ensures WellFormed(AfterStore(e, capacity, id, content))
  {
    PurgeWellFormed(e, capacity);
    InsertWellFormed(Purge(e, capacity), id, content);
  }

  /**
   * Purging comes before inserting, so a store leaves `min(len, capacity)` old entries
   * plus the new one, unless its key survived the purge, in which case the entry is
   * moved to the newest end: the size can reach `capacity + 1`, and it is 1 after
   * any store into a store of capacity 0.
   */
  lemma StoreLength(e: Entries, capacity: nat, id: Id, content: Bytes)
    requires WellFormed(e)
    ensures var p := Purge(e, capacity);
      Len(AfterStore(e, capacity, id, content)) == Min(Len(e), capacity) + (if id in p.contents then 0 else 1)
    ensures capacity == 0 ==> AfterStore(e, capacity, id, content).order == [id]
  {
    PurgeWellFormed(e, capacity);
    InsertLength(Purge(e, capacity), id, content);
  }

  lemma InsertLength(e: Entries, id: Id, content: Bytes)
    requires WellFormed(e)
    ensures Len(Insert(e, id, content)) == Len(e) + (if id in e.contents then 0 else 1)
  {
    if id in e.contents {
      var k :| 0 <= k < |e.order| && e.order[k] == id;
      RemoveAt(e.order, k);
    }
  }

  /**
   * Storing under a key that survived the purge (at position `k` of what is left)
   * moves it to the newest end; the other survivors keep their relative order.
   */
  lemma Restore(e: Entries, capacity: nat, id: Id, content: Bytes, k: nat)
    requires WellFormed(e)
    requires var p := Purge(e, capacity); k < |p.order| && p.order[k] == id
    ensures var p := Purge(e, capacity);
      AfterStore(e, capacity, id, content).order == p.order[..k] + p.order[k + 1..] + [id]
  {
    var p := Purge(e, capacity);
    PurgeWellFormed(e, capacity);
    RemoveAt(p.order, k);
    assert AfterStore(e, capacity, id, content).order == Remove(p.order, id) + [id];
  }

  /** An entry older than the newest `capacity` is gone after the next store of another key. */
  lemma Evicted(e: Entries, capacity: nat, id: Id, content: Bytes, k: nat)
    requires WellFormed(e) && k + capacity < Len(e) && e.order[k] != id
    ensures Get(AfterStore(e, capacity, id, content), e.order[k]) == None
  {
    var p := Purge(e, capacity);
    var d := Len(e) - Len(p);
    assert e.order[..d][k] == e.order[k];
  }

  /** In a well-formed map, `get` finds a key exactly when it is listed. */
  lemma GetListed(e: Entries, id: Id)
    requires WellFormed(e)
    ensures Get(e, id).Some? <==> id in e.order
  {
  }

  // ---------------------------------------------------------------------------
  // runs of stores

  /** Once a single store has been made, the size never exceeds `capacity + 1` again. */
  lemma {:induction false} StoreAllBound(e: Entries, capacity: nat, writes: seq<(Id, Bytes)>)
    requires Len(e) <= capacity + 1 || writes != []
    ensures Len(StoreAll(e, capacity, writes)) <= capacity + 1
    decreases |writes|
  {
    if writes != [] {
      StoreAllBound(AfterStore(e, capacity, writes[0].0, writes[0].1), capacity, writes[1..]);
    }
  }

  lemma NewestOfNewest(s: seq<Id>, m: nat, n: nat)
    requires n <= m <= |s|
    ensures Newest(Newest(s, m), n) == Newest(s, n)
  {
  }

  /** Storing a key that is not present appends it after what survives the purge. */
  lemma FreshStore(e: Entries, capacity: nat, id: Id, content: Bytes)
    requires WellFormed(e) && id !in e.order
    ensures AfterStore(e, capacity, id, content).order == Newest(e.order, Min(Len(e), capacity)) + [id]
  {
    var p := Purge(e, capacity);
    assert p.order == Newest(e.order, Min(Len(e), capacity));
    NotInSuffix(e.order, Len(e) - Len(p), id);
    assert Remove(p.order, id) == p.order;
    assert AfterStore(e, capacity, id, content).order == Insert(p, id, content).order;
  }

  /**
   * Storing a key the purge has just removed (or that was never there) appends it
   * after the survivors: with capacity 1 and order `[a, b]`, storing `a` gives `[b, a]`.
   */
  lemma StoreAfterPurge(e: Entries, capacity: nat, id: Id, content: Bytes)
    requires id !in Purge(e, capacity).order
    ensures AfterStore(e, capacity, id, content).order == Purge(e, capacity).order + [id]
  {
    var p := Purge(e, capacity);
    assert Remove(p.order, id) == p.order;
    assert AfterStore(e, capacity, id, content).order == Insert(p, id, content).order;
  }

  /** The example above: the re-stored key had been purged, so it goes to the newest end. */
  lemma PurgedThenRestored(a: Id, b: Id, x: Bytes, y: Bytes, z: Bytes)
    requires a != b
    ensures AfterStore(Entries([a, b], map[a := x, b := y]), 1, a, z).order == [b, a]
  {
    var e := Entries([a, b], map[a := x, b := y]);
    var p := Purge(e, 1);
    assert p.order == [b];
    StoreAfterPurge(e, 1, a, z);
  }

  lemma NotInSuffix(s: seq<Id>, k: nat, x: Id)
    requires k <= |s| && x !in s
    ensures x !in s[k..]
  {
    forall i | 0 <= i < |s| - k ensures s[k..][i] != x {
      assert s[k..][i] == s[k + i];
    }
  }

  lemma SuffixOfAppend(a: seq<Id>, b: seq<Id>, c: seq<Id>, lo: nat)
    requires lo <= |a|
    ensures (a + (b + c))[lo..] == a[lo..] + b + c
  {
  }

  lemma DistinctSuffix(s: seq<Id>, k: nat)
    requires Distinct(s) && k <= |s|
    ensures Distinct(s[k..])
  {
    forall i, j | 0 <= i < j < |s| - k ensures s[k..][i] != s[k..][j] {
      assert s[k..][i] == s[k + i] && s[k..][j] == s[k + j];
    }
  }

  /**
   * Storing `n >= 1` keys that are new and pairwise different keeps the newest
   * `min(len + n, capacity + 1)` keys of the old keys followed by the new ones: once
   * the new keys alone exceed `capacity + 1`, the oldest of them go as well.
   */
  lemma {:induction false} StoreAllFresh(e: Entries, capacity: nat, writes: seq<(Id, Bytes)>)
    requires WellFormed(e) && writes != []
    requires Distinct(e.order + IdsOf(writes))
    ensures var all := e.order + IdsOf(writes);
      StoreAll(e, capacity, writes).order == Newest(all, Min(|all|, capacity + 1))
    decreases |writes|
  {
    var all := e.order + IdsOf(writes);
    var e' := AfterStore(e, capacity, writes[0].0, writes[0].1);
    var rest := writes[1..];
    var all' := e'.order + IdsOf(rest);
    FreshStep(e, capacity, writes);
    if rest != [] {
      StoreAllFresh(e', capacity, rest);
      NewestOfNewest(all, |all'|, Min(|all'|, capacity + 1));
    }
  }

  /** One step of `StoreAllFresh`: the first store, and what the rest of the run starts from. */
  lemma FreshStep(e: Entries, capacity: nat, writes: seq<(Id, Bytes)>)
    requires WellFormed(e) && writes != []
    requires Distinct(e.order + IdsOf(writes))
    ensures var e' := AfterStore(e, capacity, writes[0].0, writes[0].1);
      var all := e.order + IdsOf(writes);
      var all' := e'.order + IdsOf(writes[1..]);
      && StoreAll(e, capacity, writes) == StoreAll(e', capacity, writes[1..])
      && WellFormed(e') && Distinct(all')
      && all' == Newest(all, |all'|)
      && Min(|all'|, capacity + 1) == Min(|all|, capacity + 1)
  {
    var (id, content) := writes[0];
    var rest := writes[1..];
    assert IdsOf(writes) == [id] + IdsOf(rest);
    FreshHead(e.order, id, IdsOf(rest));
    FreshStore(e, capacity, id, content);
    FreshTail(e.order, id, IdsOf(rest), Min(Len(e), capacity), capacity);
    StoreWellFormed(e, capacity, id, content);
  }

  /** The first of a run of pairwise different new keys is not yet stored. */
  lemma FreshHead(order: seq<Id>, id: Id, ids: seq<Id>)
    requires Distinct(order + ([id] + ids))
    ensures id !in order
  {
    var all := order + ([id] + ids);
    forall i | 0 <= i < |order| ensures order[i] != id {
      assert all[i] == order[i] && all[|order|] == id;
    }
  }

  /** What survives one fresh store, followed by the later keys, is a suffix of the whole run. */
  lemma FreshTail(order: seq<Id>, id: Id, ids: seq<Id>, m: nat, capacity: nat)
    requires Distinct(order + ([id] + ids)) && m == Min(|order|, capacity)
    ensures var all := order + ([id] + ids);
      var all' := Newest(order, m) + [id] + ids;
      all' == Newest(all, |all'|) && Distinct(all')
      && Min(|all'|, capacity + 1) == Min(|all|, capacity + 1)
  {
    var all := order + ([id] + ids);
    SuffixOfAppend(order, [id], ids, |order| - m);
    DistinctSuffix(all, |order| - m);
  }

  // ---------------------------------------------------------------------------
  // the store itself

  /** A fresh store's contents: no entries. */
  function Empty(): Entries {
    Entries([], map[])
  }

  /**
   * With capacity 2, storing four new keys a, b, c, d one after the other leaves b, c
   * and d: the purge before the fourth insert stops at two entries.
   */
  lemma FourIntoTwo(writes: seq<(Id, Bytes)>)
    requires |writes| == 4 && Distinct(IdsOf(writes))
    ensures StoreAll(Empty(), 2, writes).order == IdsOf(writes)[1..]
  {
    var all := IdsOf(writes);
    var e := Empty();
    assert e.order + all == all;
    assert WellFormed(e);
    StoreAllFresh(e, 2, writes);
    assert Min(|e.order + all|, 2 + 1) == 3;
    assert StoreAll(e, 2, writes).order == Newest(all, 3);
    assert Newest(all, 3) == all[1..];
  }

  /**
   * Re-storing a key that is present can still evict another one: in a full store
   * (`capacity + 1` entries, as a store leaves it), storing the newest key again
   * drops the oldest entry and shrinks the size to `capacity`.
   */
  lemma OverwriteEvicts(e: Entries, capacity: nat, content: Bytes)
    requires WellFormed(e) && capacity >= 1 && Len(e) == capacity + 1
    ensures var id := e.order[Len(e) - 1];
      var r := AfterStore(e, capacity, id, content);
      e.order[0] != id && Get(r, e.order[0]) == None && Len(r) == capacity
  {
    var id := e.order[Len(e) - 1];
    var p := Purge(e, capacity);
    assert p.order[capacity - 1] == id;
    StoreLength(e, capacity, id, content);
    PurgeWellFormed(e, capacity);
    Evicted(e, capacity, id, content, 0);
  }

  /**
   * The shared store: a `LinkedHashMap` held as its key order and its contents, and
   * the capacity it was built with. `Valid` is the invariant every call keeps.
   */
  class PasteStore {
    const capacity: nat
    var order: seq<Id>
    var contents: map<Id, Bytes>

    function Model(): Entries
      reads this
    {
      Entries(order, contents)
    }

    ghost predicate Valid()
      reads this
    {
      WellFormed(Model())
    }

    constructor(capacity: nat)
      ensures this.capacity == capacity && Model() == Empty() && Valid()
    {
      this.capacity := capacity;
      order := [];
      contents := map[];
    }

    /** `purge_old`: pop the front `len - capacity` times when over capacity. */
    method PurgeOld()
      requires Valid()
      modifies this
      ensures Model() == Purge(old(Model()), capacity) && Valid()
    {
      if |order| > capacity {
        var toRemove := |order| - capacity;
        var i := 0;
        while i < toRemove
          invariant 0 <= i <= toRemove == |old(order)| - capacity
          invariant Model() == DropOldest(old(Model()), i)
        {
          var oldest := order[0];
          order := order[1..];
          contents := contents - {oldest};
          i := i + 1;
        }
      }
      PurgeWellFormed(old(Model()), capacity);
    }

    /** `store_paste`: purge, then insert (or move to the newest end and replace). */
    method StorePaste(id: Id, content: Bytes)
      requires Valid()
      modifies this
      ensures Model() == AfterStore(old(Model()), capacity, id, content) && Valid()
      ensures Get(Model(), id) == Some(content) && Len(Model()) <= capacity + 1
    {
      PurgeOld();
      order := Remove(order, id) + [id];
      contents := contents[id := content];
      StoreWellFormed(old(Model()), capacity, id, content);
    }

    /** `get_paste`: a lookup that leaves the store and its order alone. */
    method GetPaste(id: Id) returns (r: Option<Bytes>)
      requires Valid()
      ensures r.Some? <==> id in order
      ensures r.Some? ==> r.value == contents[id]
    {
      GetListed(Model(), id);
      if id in contents {
        r := Some(contents[id]);
      } else {
        r := None;
      }
    }
  }
}
