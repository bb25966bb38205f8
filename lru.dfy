/**
 * The byte-budgeted LRU store of `lru/lru.go`.
 *
 * `Cache` keeps the recency list `ll` (front = most recently used = index 0,
 * back = least recently used = last index) and the index `cache` from key to list
 * element. An element is an object: `Add` on an existing key overwrites its value
 * in place, and the change is seen through both the list and the index.
 * The ghost field `entries` is the abstract state; `Valid()` ties it to the
 * elements, and every method says what it becomes in terms of the functions of
 * `LruModel`.
 */
module Lru {
  import opened GoTypes
  import opened LruModel

  /** A list element (Go's `*list.Element` holding an `*entry`). */
  class Element<V> {
    const key: GoString
    var value: V

    constructor (key: GoString, value: V)
      ensures this.key == key && this.value == value
    {
      this.key := key;
      this.value := value;
    }
  }

  /** The elements `l` hold exactly the entries `s`, index by index. */
  ghost predicate Holds<V>(l: seq<Element<V>>, s: seq<Entry<V>>)
    reads l
  {
    |l| == |s| && forall i {:trigger l[i]} :: 0 <= i < |l| ==> s[i] == Entry(l[i].key, l[i].value)
  }

  /** The sequence with the element for `k` unlinked (`ll.Remove`); the others keep their order. */
  function Unlink<V>(l: seq<Element<V>>, k: GoString): seq<Element<V>>
  {
    if l == [] then [] else (if l[0].key == k then [] else [l[0]]) + Unlink(l[1..], k)
  }

  /** Unlinking an element is unlinking its entry. */
  lemma {:induction false} UnlinkHolds<V>(l: seq<Element<V>>, s: seq<Entry<V>>, k: GoString)
    requires Holds(l, s)
    ensures Holds(Unlink(l, k), WithoutKey(s, k))
  {
    if l != [] {
      assert Holds(l[1..], s[1..]);
      UnlinkHolds(l[1..], s[1..], k);
      if l[0].key != k {
        assert Unlink(l, k) == [l[0]] + Unlink(l[1..], k);
        assert WithoutKey(s, k) == [s[0]] + WithoutKey(s[1..], k);
      }
    }
  }

  /** The keys of the unlinked sequence are those of the unlinked entries, whatever the values. */
  lemma {:induction false} UnlinkKeys<V, W>(l: seq<Element<V>>, s: seq<Entry<W>>, k: GoString)
    requires |l| == |s| && forall i :: 0 <= i < |l| ==> s[i].key == l[i].key
    ensures |Unlink(l, k)| == |WithoutKey(s, k)|
    ensures forall i :: 0 <= i < |Unlink(l, k)| ==> Unlink(l, k)[i].key == WithoutKey(s, k)[i].key
    ensures forall e {:trigger e in Unlink(l, k)} :: e in Unlink(l, k) ==> e in l && e.key != k
    ensures forall e {:trigger e in l} :: e in l && e.key != k ==> e in Unlink(l, k)
  {
    if l != [] {
      UnlinkKeys(l[1..], s[1..], k);
      assert l == [l[0]] + l[1..];
      if l[0].key != k {
        assert Unlink(l, k) == [l[0]] + Unlink(l[1..], k);
        assert WithoutKey(s, k) == [s[0]] + WithoutKey(s[1..], k);
      }
    }
  }

  /** Distinct keys: as many keys as elements. */
  lemma {:induction false} KeysOfDistinct<V>(l: seq<Element<V>>)
    requires forall i, j :: 0 <= i < j < |l| ==> l[i].key != l[j].key
    ensures |set i | 0 <= i < |l| :: l[i].key| == |l|
  {
    if l != [] {
      var t := l[..|l| - 1];
      KeysOfDistinct(t);
      var ks := set i | 0 <= i < |l| :: l[i].key;
      var kt := set i | 0 <= i < |t| :: t[i].key;
      assert ks == kt + {l[|l| - 1].key};
      assert l[|l| - 1].key !in kt;
    }
  }

  /**
   * The list and the index agree: each element of `l` is indexed under its key,
   * every indexed element is in `l` under its own key, and no key occurs twice.
   * Keys are immutable, so this does not depend on the heap.
   */
  ghost predicate Indexed<V>(l: seq<Element<V>>, m: map<GoString, Element<V>>)
  {
    && (forall i :: 0 <= i < |l| ==> l[i].key in m && m[l[i].key] == l[i])
    && (forall k :: k in m ==> m[k].key == k && m[k] in l)
    && (forall i, j :: 0 <= i < j < |l| ==> l[i].key != l[j].key)
  }

  /** Unlinking the back element and deleting its key keeps the list and the index in step (`removeElement`). */
  lemma IndexedDropLast<V>(l: seq<Element<V>>, m: map<GoString, Element<V>>)
    requires Indexed(l, m) && l != []
    ensures Indexed(l[..|l| - 1], m - {l[|l| - 1].key})
  {
    var t := l[..|l| - 1];
    var e := l[|l| - 1];
    forall k | k in m - {e.key} ensures m[k] in t {
      var i :| 0 <= i < |l| && l[i] == m[k];
      assert i != |l| - 1;
      assert t[i] == m[k];
    }
  }

  /** `MoveToFront` on an indexed key keeps the list and the index in step. */
  lemma IndexedMoveFront<V>(l: seq<Element<V>>, m: map<GoString, Element<V>>, k: GoString)
    requires Indexed(l, m) && k in m
    ensures Indexed([m[k]] + Unlink(l, k), m)
    ensures m[k] !in Unlink(l, k)
  {
    var rest := Unlink(l, k);
    var s := seq(|l|, i requires 0 <= i < |l| => Entry(l[i].key, 0));
    UnlinkKeys(l, s, k);
    WithoutKeyDistinct(s, k);
    var n := [m[k]] + rest;
    forall i | 0 < i < |n| ensures n[i].key in m && m[n[i].key] == n[i] && n[i].key != k {
      assert rest[i - 1] in rest;
    }
    forall i, j | 0 <= i < j < |n| ensures n[i].key != n[j].key {
      if i > 0 {
        assert WithoutKey(s, k)[i - 1].key != WithoutKey(s, k)[j - 1].key;
      }
    }
    forall k' | k' in m && k' != k ensures m[k'] in n {
      assert m[k'] in rest;
    }
  }

  /** `PushFront` of an element for a key not yet indexed keeps the list and the index in step. */
  lemma IndexedPushFront<V>(l: seq<Element<V>>, m: map<GoString, Element<V>>, e: Element<V>)
    requires Indexed(l, m) && e.key !in m
    ensures Indexed([e] + l, m[e.key := e])
  {
    var n := [e] + l;
    forall i | 0 < i < |n| ensures n[i].key != e.key {
      assert n[i] == l[i - 1];
    }
  }

  /** An element in front of a list holds its entry in front of the entries. */
  lemma HoldsCons<V>(e: Element<V>, l: seq<Element<V>>, s: seq<Entry<V>>)
    requires Holds(l, s)
    ensures Holds([e] + l, [Entry(e.key, e.value)] + s)
  {
  }

  class Cache<V> {
    /** The byte budget; 0 means unbounded. */
    const maxBytes: int
    /** The byte counter. */
    var nBytes: int
    /** The recency list, most recently used first. */
    var ll: seq<Element<V>>
    /** The index from key to list element. */
    var cache: map<GoString, Element<V>>
    /** `Value.Len()`. */
    const size: V -> nat
    /** Whether `OnEvicted` is non-nil. */
    const notify: bool
    /** The (key, value) pairs passed to `OnEvicted` so far, in call order. */
    var evictions: seq<Entry<V>>
    /** The abstract state: the entries of `ll`, most recently used first. */
    ghost var entries: seq<Entry<V>>

    /** The list and the index agree. */
    ghost predicate Linked()
      reads this
    {
      Indexed(ll, cache)
    }

    /** Linked, `entries` is what the list holds, and the counter is within a non-zero budget. */
    ghost predicate Valid()
      reads this, ll
    {
      Linked() && Holds(ll, entries) && 0 <= maxBytes && (maxBytes != 0 ==> nBytes <= maxBytes)
    }

    /** `New(maxBytes, onEvicted)`; a negative budget would make `Add` loop forever. */
    constructor (maxBytes: int, size: V -> nat, notify: bool)
      requires 0 <= maxBytes
      ensures Valid()
      ensures entries == [] && nBytes == 0 && evictions == []
      ensures this.maxBytes == maxBytes && this.size == size && this.notify == notify
    {
      this.maxBytes := maxBytes;
      this.nBytes := 0;
      this.ll := [];
      this.cache := map[];
      this.size := size;
      this.notify := notify;
      this.evictions := [];
      this.entries := [];
    }

    /** The index finds a key exactly when the list holds it, with the same value. */
    lemma LookupIndex(k: GoString)
      requires Linked() && Holds(ll, entries)
      ensures DistinctKeys(entries)
      ensures Lookup(entries, k) == if k in cache then Some(cache[k].value) else None
      ensures k !in cache ==> WithoutKey(entries, k) == entries
    {
      forall i | 0 <= i < |entries| ensures entries[i].key == ll[i].key && ll[i].key in cache {
      }
      if k in cache {
        var i :| 0 <= i < |ll| && ll[i] == cache[k];
        LookupAt(entries, i);
      } else {
        LookupAbsent(entries, k);
      }
    }

    /** The number of entries: the list and the index have the same size. */
    function Len(): (n: nat)
      reads this
      requires Linked()
      ensures n == |cache|
    {
      SizeAgrees();
      |ll|
    }

    lemma SizeAgrees()
      requires Linked()
      ensures |cache| == |ll|
    {
      var ks := set i | 0 <= i < |ll| :: ll[i].key;
      forall k | k in cache ensures k in ks {
        var i :| 0 <= i < |ll| && ll[i] == cache[k];
      }
      assert cache.Keys == ks;
      KeysOfDistinct(ll);
    }

    /** `Get(key)`: a hit returns the value and moves it to the front; a miss changes nothing. */
    method Get(key: GoString) returns (value: Option<V>)
      requires Valid()
      modifies this
      ensures forall e :: e in ll ==> e in old(ll) || fresh(e)
      ensures Valid()
      ensures value == Lookup(old(entries), key)
      ensures entries == Touch(old(entries), key)
      ensures cache == old(cache) && nBytes == old(nBytes) && evictions == old(evictions)
    {
      LookupIndex(key);
      if key in cache {
        MoveToFront(key);
        value := Some(ll[0].value);
      } else {
        value := None;
      }
    }

    /** `ll.MoveToFront(cache[key])` for a present key: its entry becomes the most recently used. */
    method MoveToFront(key: GoString)
      requires Linked() && Holds(ll, entries)
      requires key in cache
      modifies this
      ensures forall e :: e in ll ==> e in old(ll) || fresh(e)
      ensures Linked() && Holds(ll, entries)
      ensures entries == Touch(old(entries), key)
      ensures ll != [] && ll[0] == old(cache[key]) && entries[0] == Entry(key, ll[0].value)
      ensures Lookup(old(entries), key) == Some(ll[0].value)
      ensures cache == old(cache) && nBytes == old(nBytes) && evictions == old(evictions)
    {
      LookupIndex(key);
      var elem := cache[key];
      assert elem.key == key;
      var rest := Unlink(ll, key);
      UnlinkHolds(ll, entries, key);
      UnlinkKeys(ll, entries, key);
      IndexedMoveFront(ll, cache, key);
      HoldsCons(elem, rest, WithoutKey(entries, key));
      ll := [elem] + rest;
      entries := [Entry(key, elem.value)] + WithoutKey(entries, key);
    }

    /** Overwrite the value of the front element in place (`ee.Value.(*entry).value = value`). */
    method SetFront(value: V)
      requires Linked() && Holds(ll, entries) && ll != []
      modifies this, ll[0]
      ensures Linked() && Holds(ll, entries)
      ensures ll == old(ll) && cache == old(cache)
      ensures entries == [Entry(ll[0].key, value)] + old(entries)[1..]
      ensures nBytes == old(nBytes) && evictions == old(evictions)
    {
      var elem := ll[0];
      assert forall i :: 0 < i < |ll| ==> ll[i] != elem by {
        forall i | 0 < i < |ll| ensures ll[i] != elem {
          assert ll[i].key != ll[0].key;
        }
      }
      elem.value := value;
      entries := [Entry(elem.key, value)] + entries[1..];
    }

    /** `RemoveOldest()`: evicts the back entry, if any, and reports it to `OnEvicted`. */
    method RemoveOldest()
      requires Linked() && Holds(ll, entries)
      modifies this
      ensures forall e :: e in ll ==> e in old(ll) || fresh(e)
      ensures Linked() && Holds(ll, entries)
      ensures old(entries) == [] ==>
                entries == old(entries) && cache == old(cache) && nBytes == old(nBytes) && evictions == old(evictions)
      ensures old(entries) != [] ==> entries == old(entries)[..|old(entries)| - 1]
      ensures old(entries) != [] ==> cache == old(cache) - {old(entries)[|old(entries)| - 1].key}
      ensures old(entries) != [] ==> nBytes == old(nBytes) - Bytes(old(entries)[|old(entries)| - 1], size)
      ensures old(entries) != [] ==>
                evictions == old(evictions) + (if notify then [old(entries)[|old(entries)| - 1]] else [])
      ensures nBytes <= old(nBytes)
      ensures old(Valid()) ==> Valid()
    {
      if ll != [] {
        var elem := ll[|ll| - 1];
        IndexedDropLast(ll, cache);
        ll := ll[..|ll| - 1];
        cache := cache - {elem.key};
        nBytes := nBytes - (|elem.key| + size(elem.value));
        if notify {
          evictions := evictions + [Entry(elem.key, elem.value)];
        }
        entries := entries[..|entries| - 1];
      }
    }

    /**
     * `Add(key, value)`: insert or update at the front, then evict from the back
     * while the counter exceeds a non-zero budget. As written, an update leaves the
     * counter unchanged (see `PutBytes`).
     */
    method Add(key: GoString, value: V)
      requires Valid()
      modifies this, ll
      ensures forall e :: e in ll ==> e in old(ll) || fresh(e)
      ensures Valid()
      ensures var r := AddOutcome(old(entries), old(nBytes), maxBytes, key, value, size);
              && entries == r.kept
              && nBytes == r.nBytes
              && evictions == old(evictions) + (if notify then r.evicted else [])
    {
      LookupIndex(key);
      PutGapBound(entries, nBytes, key, value, size);
      InsertOrUpdate(key, value);
      EvictOverBudget();
    }

    /** The eviction loop at the end of `Add`: remove the oldest entry while over a non-zero budget. */
    method EvictOverBudget()
      requires Linked() && Holds(ll, entries)
      requires 0 <= maxBytes && (maxBytes != 0 ==> nBytes - Sum(entries, size) <= maxBytes)
      modifies this
      ensures forall e :: e in ll ==> e in old(ll) || fresh(e)
      ensures Linked() && Holds(ll, entries)
      ensures maxBytes != 0 ==> nBytes <= maxBytes
      ensures var r := Evict(old(entries), old(nBytes), maxBytes, size);
              && entries == r.kept
              && nBytes == r.nBytes
              && evictions == old(evictions) + (if notify then r.evicted else [])
    {
      ghost var target := Evict(entries, nBytes, maxBytes, size);
      ghost var s, n, ev := entries, nBytes, evictions;
      ghost var done: seq<Entry<V>> := [];
      assert After(done, target) == target;
      while maxBytes != 0 && maxBytes < nBytes
        invariant Linked() && Holds(ll, entries)
        invariant forall e :: e in ll ==> e in old(ll) || fresh(e)
        invariant entries == s && nBytes == n && evictions == ev
        invariant n - Sum(s, size) == old(nBytes) - Sum(old(entries), size)
        invariant After(done, Evict(s, n, maxBytes, size)) == target
        invariant ev == old(evictions) + (if notify then done else [])
        decreases |ll|
      {
        ghost var last := s[|s| - 1];
        EvictLoopStep(s, n, maxBytes, size, done);
        LogStep(old(evictions), done, last, notify);
        RemoveOldest();
        done := done + [last];
        s, n, ev := s[..|s| - 1], n - Bytes(last, size), ev + (if notify then [last] else []);
      }
      EvictLoopExit(s, n, maxBytes, size, done);
    }

    /** The insert/update step of `Add`, before the eviction loop. */
    method InsertOrUpdate(key: GoString, value: V)
      requires Linked() && Holds(ll, entries)
      modifies this, ll
      ensures forall e :: e in ll ==> e in old(ll) || fresh(e)
      ensures Linked() && Holds(ll, entries)
      ensures entries == Put(old(entries), key, value)
      ensures nBytes == PutBytes(old(entries), old(nBytes), key, value, size)
      ensures evictions == old(evictions)
    {
      LookupIndex(key);
      if key in cache {
        Update(key, value);
      } else {
        Insert(key, value);
      }
    }

    /** A present key: its element moves to the front and its value is overwritten in place. */
    method Update(key: GoString, value: V)
      requires Linked() && Holds(ll, entries)
      requires key in cache
      modifies this, ll
      ensures forall e :: e in ll ==> e in old(ll) || fresh(e)
      ensures Linked() && Holds(ll, entries)
      ensures entries == Put(old(entries), key, value)
      ensures nBytes == PutBytes(old(entries), old(nBytes), key, value, size)
      ensures evictions == old(evictions)
    {
      MoveToFront(key);
      SetFront(value);
      nBytes := nBytes + (size(value) - size(ll[0].value));
    }

    /**
     * `Add` as evidently intended: the size change is taken against the value being
     * replaced. A counter that starts exact stays exact, so the cache never holds
     * more bytes than a non-zero budget.
     */
    method AddFixed(key: GoString, value: V)
      requires Valid() && nBytes == Sum(entries, size)
      modifies this, ll
      ensures forall e :: e in ll ==> e in old(ll) || fresh(e)
      ensures Valid() && nBytes == Sum(entries, size)
      ensures var r := Evict(Put(old(entries), key, value),
                             PutBytesFixed(old(entries), old(nBytes), key, value, size), maxBytes, size);
              && entries == r.kept
              && evictions == old(evictions) + (if notify then r.evicted else [])
      ensures maxBytes != 0 ==> Sum(entries, size) <= maxBytes
    {
      LookupIndex(key);
      PutShape(entries, key, value);
      PutBytesFixedExact(entries, key, value, size);
      if key in cache {
        UpdateFixed(key, value);
      } else {
        Insert(key, value);
      }
      EvictShape(entries, nBytes, maxBytes, size);
      EvictOverBudget();
    }

    /** The corrected update step: the delta is computed before the value is overwritten. */
    method UpdateFixed(key: GoString, value: V)
      requires Linked() && Holds(ll, entries)
      requires key in cache
      modifies this, ll
      ensures forall e :: e in ll ==> e in old(ll) || fresh(e)
      ensures Linked() && Holds(ll, entries)
      ensures entries == Put(old(entries), key, value)
      ensures nBytes == PutBytesFixed(old(entries), old(nBytes), key, value, size)
      ensures evictions == old(evictions)
    {
      MoveToFront(key);
      var prev := ll[0].value;
      SetFront(value);
      nBytes := nBytes + (size(value) - size(prev));
    }

    /** An absent key: a new element goes to the front and is indexed. */
    method Insert(key: GoString, value: V)
      requires Linked() && Holds(ll, entries)
      requires key !in cache
      modifies this
      ensures forall e :: e in ll ==> e in old(ll) || fresh(e)
      ensures Linked() && Holds(ll, entries)
      ensures entries == Put(old(entries), key, value)
      ensures nBytes == PutBytes(old(entries), old(nBytes), key, value, size)
      ensures evictions == old(evictions)
    {
      LookupIndex(key);
      var elem := new Element(key, value);
      IndexedPushFront(ll, cache, elem);
      HoldsCons(elem, ll, entries);
      ll := [elem] + ll;
      cache := cache[key := elem];
      nBytes := nBytes + |key| + size(value);
      entries := [Entry(key, value)] + entries;
    }
  }

  /**
   * Two `Add`s in a row on an 8-byte budget, with `Value.Len()` the length of a
   * string: the second entry (1 + 3 bytes) takes the counter to 10, so the first
   * (1 + 5 bytes), now the oldest, is evicted and reported; then `RemoveOldest`
   * empties the cache and a further `Add` fits.
   */
  method AddAddRemoveAdd() returns (c: Cache<GoString>)
    ensures c.Valid()
    ensures c.entries == [Entry([109], [7])] && c.nBytes == 2
    ensures c.evictions == [Entry([107], [1, 2, 3, 4, 5]), Entry([108], [1, 2, 3])]
  {
    c := new Cache<GoString>(8, v => |v|, true);
    c.Add([107], [1, 2, 3, 4, 5]);
    assert c.entries == [Entry([107], [1, 2, 3, 4, 5])] && c.nBytes == 6 && c.evictions == [];
    c.Add([108], [1, 2, 3]);
    assert c.entries == [Entry([108], [1, 2, 3])] && c.nBytes == 4;
    c.RemoveOldest();
    c.Add([109], [7]);
  }
}
