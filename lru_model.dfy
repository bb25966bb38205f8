/**
 * The abstract state of the LRU store of `lru/lru.go`: the recency list as a
 * sequence of (key, value) entries, most recently used FIRST (Go's `ll.Front()`)
 * and least recently used LAST (`ll.Back()`), together with the byte counter.
 *
 * Every operation of `Cache` is specified by one of the functions below, and the
 * lemmas state what those functions promise: map semantics, recency order,
 * eviction from the back, the byte budget, and the drift of the byte counter.
 */
module LruModel {
  import opened GoTypes

  /** What one list element holds (Go's `entry`). */
  datatype Entry<V> = Entry(key: GoString, value: V)

  /** The bytes one entry is charged: `len(key) + value.Len()`. */
  function Bytes<V>(e: Entry<V>, size: V -> nat): nat
  {
    |e.key| + size(e.value)
  }

  /** The true number of bytes held by a list of entries. */
  function Sum<V>(s: seq<Entry<V>>, size: V -> nat): nat
  {
    if s == [] then 0 else Sum(s[..|s| - 1], size) + Bytes(s[|s| - 1], size)
  }

  /** No key occurs twice in the list. */
  ghost predicate DistinctKeys<V>(s: seq<Entry<V>>)
  {
    forall i, j :: 0 <= i < j < |s| ==> s[i].key != s[j].key
  }

  /** The keys present in the list. */
  function KeySet<V>(s: seq<Entry<V>>): set<GoString>
  {
    if s == [] then {} else {s[0].key} + KeySet(s[1..])
  }

  /** The value stored under `k`, reading the list from the front. */
  function Lookup<V>(s: seq<Entry<V>>, k: GoString): Option<V>
  {
    if s == [] then None
    else if s[0].key == k then Some(s[0].value)
    else Lookup(s[1..], k)
  }

  /** The list with every entry for `k` unlinked; the others keep their order. */
  function WithoutKey<V>(s: seq<Entry<V>>, k: GoString): seq<Entry<V>>
  {
    if s == [] then []
    else (if s[0].key == k then [] else [s[0]]) + WithoutKey(s[1..], k)
  }

  /** Reference semantics: the key/value dictionary a list of entries denotes. */
  function AsMap<V>(s: seq<Entry<V>>): map<GoString, V>
  {
    if s == [] then map[] else AsMap(s[1..])[s[0].key := s[0].value]
  }

  /** The list after `Get(k)`: a hit moves its entry to the front; a miss changes nothing. */
  function Touch<V>(s: seq<Entry<V>>, k: GoString): seq<Entry<V>>
  {
    match Lookup(s, k)
    case Some(v) => [Entry(k, v)] + WithoutKey(s, k)
    case None => s
  }

  /** The list after the insert/update step of `Add(k, v)`, before any eviction. */
  function Put<V>(s: seq<Entry<V>>, k: GoString, v: V): seq<Entry<V>>
  {
    [Entry(k, v)] + WithoutKey(s, k)
  }

  /**
   * The byte counter after the insert/update step of `Add(k, v)`, AS WRITTEN:
   * on an update the new value is stored before `value.Len() - entry.value.Len()`
   * is computed, so the adjustment is always zero.
   */
  function PutBytes<V>(s: seq<Entry<V>>, n: int, k: GoString, v: V, size: V -> nat): int
  {
    match Lookup(s, k)
    case Some(_) => n + (size(v) - size(v))
    case None => n + |k| + size(v)
  }

  /** The byte counter as evidently intended: the delta uses the value being replaced. */
  function PutBytesFixed<V>(s: seq<Entry<V>>, n: int, k: GoString, v: V, size: V -> nat): int
  {
    match Lookup(s, k)
    case Some(prev) => n + (size(v) - size(prev))
    case None => n + |k| + size(v)
  }

  /** The outcome of the eviction loop: the entries kept, the counter, and the entries evicted in order. */
  datatype Eviction<V> = Eviction(kept: seq<Entry<V>>, nBytes: int, evicted: seq<Entry<V>>)

  /**
   * The eviction loop `for maxBytes != 0 && maxBytes < nBytes { RemoveOldest() }`.
   * It removes entries strictly from the back, least recently used first.
   * In Go, an empty list with the counter still over budget would make the loop
   * spin forever, since `RemoveOldest` then does nothing; the `s != []` guard only
   * makes this function total. `Cache.EvictOverBudget` requires the counter's
   * excess over the true byte total to be within the budget, which proves the
   * guard is never what stops the loop (an empty list then has counter at most the budget).
   */
  function Evict<V>(s: seq<Entry<V>>, n: int, maxBytes: int, size: V -> nat): Eviction<V>
    decreases |s|
  {
    if maxBytes != 0 && maxBytes < n && s != [] then
      var last := s[|s| - 1];
      var r := Evict(s[..|s| - 1], n - Bytes(last, size), maxBytes, size);
      Eviction(r.kept, r.nBytes, [last] + r.evicted)
    else
      Eviction(s, n, [])
  }

  /**
   * What the eviction loop does to the list: it keeps a prefix (the most recently
   * used entries), evicts the rest from the back (least recently used first),
   * charges the counter exactly the bytes of what it evicts, and never evicts
   * anything when the budget is 0.
   */
  lemma EvictShape<V>(s: seq<Entry<V>>, n: int, maxBytes: int, size: V -> nat)
    ensures var r := Evict(s, n, maxBytes, size);
            && |r.kept| + |r.evicted| == |s|
            && r.kept == s[..|r.kept|]
            && (forall j :: 0 <= j < |r.evicted| ==> r.evicted[j] == s[|s| - 1 - j])
            && r.nBytes - Sum(r.kept, size) == n - Sum(s, size)
            && (maxBytes == 0 ==> r == Eviction(s, n, []))
  {
    EvictKeepsPrefix(s, n, maxBytes, size);
    EvictFromBack(s, n, maxBytes, size);
    EvictCharges(s, n, maxBytes, size);
  }

  /** The kept entries are a prefix, and kept and evicted together account for the whole list. */
  lemma {:induction false} EvictKeepsPrefix<V>(s: seq<Entry<V>>, n: int, maxBytes: int, size: V -> nat)
    ensures var r := Evict(s, n, maxBytes, size);
            |r.kept| + |r.evicted| == |s| && r.kept == s[..|r.kept|]
    decreases |s|
  {
    if maxBytes != 0 && maxBytes < n && s != [] {
      var t := s[..|s| - 1];
      EvictKeepsPrefix(t, n - Bytes(s[|s| - 1], size), maxBytes, size);
      var r' := Evict(t, n - Bytes(s[|s| - 1], size), maxBytes, size);
      assert t[..|r'.kept|] == s[..|r'.kept|];
    } else {
      assert s[..|s|] == s;
    }
  }

  /** The evicted entries are the back of the list, in order from the back. */
  lemma {:induction false} EvictFromBack<V>(s: seq<Entry<V>>, n: int, maxBytes: int, size: V -> nat)
    ensures var r := Evict(s, n, maxBytes, size);
            |r.evicted| <= |s| && forall j :: 0 <= j < |r.evicted| ==> r.evicted[j] == s[|s| - 1 - j]
    decreases |s|
  {
    if maxBytes != 0 && maxBytes < n && s != [] {
      var last := s[|s| - 1];
      var t := s[..|s| - 1];
      EvictFromBack(t, n - Bytes(last, size), maxBytes, size);
      var r' := Evict(t, n - Bytes(last, size), maxBytes, size);
      var r := Evict(s, n, maxBytes, size);
      assert r.evicted == [last] + r'.evicted;
      forall j | 0 <= j < |r.evicted| ensures r.evicted[j] == s[|s| - 1 - j] {
        if j > 0 {
          assert r.evicted[j] == r'.evicted[j - 1];
        }
      }
    }
  }

  /** The counter drops by exactly the bytes evicted, so the phantom part of it is unchanged. */
  lemma {:induction false} EvictCharges<V>(s: seq<Entry<V>>, n: int, maxBytes: int, size: V -> nat)
    ensures var r := Evict(s, n, maxBytes, size);
            r.nBytes - Sum(r.kept, size) == n - Sum(s, size)
    decreases |s|
  {
    if maxBytes != 0 && maxBytes < n && s != [] {
      EvictCharges(s[..|s| - 1], n - Bytes(s[|s| - 1], size), maxBytes, size);
    }
  }

  /** One turn of the eviction loop: the back entry goes first, and the rest is evicted as from the shorter list. */
  lemma EvictStep<V>(s: seq<Entry<V>>, n: int, maxBytes: int, size: V -> nat)
    requires maxBytes != 0 && maxBytes < n && s != []
    ensures var last := s[|s| - 1];
            var r := Evict(s[..|s| - 1], n - Bytes(last, size), maxBytes, size);
            && Evict(s, n, maxBytes, size) == Eviction(r.kept, r.nBytes, [last] + r.evicted)
            && Sum(s, size) == Sum(s[..|s| - 1], size) + Bytes(last, size)
  {
  }

  /** The outcome `r` still to come, after the entries `done` already evicted. */
  function After<V>(done: seq<Entry<V>>, r: Eviction<V>): Eviction<V>
  {
    Eviction(r.kept, r.nBytes, done + r.evicted)
  }

  /**
   * One turn of the eviction loop keeps its invariant: removing the back entry
   * and logging it leaves the whole outcome the same, and the phantom part of
   * the counter the same.
   */
  lemma EvictLoopStep<V>(s: seq<Entry<V>>, n: int, maxBytes: int, size: V -> nat, done: seq<Entry<V>>)
    requires maxBytes != 0 && maxBytes < n && s != []
    ensures var last := s[|s| - 1];
            && After(done, Evict(s, n, maxBytes, size))
               == After(done + [last], Evict(s[..|s| - 1], n - Bytes(last, size), maxBytes, size))
            && (n - Bytes(last, size)) - Sum(s[..|s| - 1], size) == n - Sum(s, size)
  {
    var last := s[|s| - 1];
    var r := Evict(s[..|s| - 1], n - Bytes(last, size), maxBytes, size);
    EvictStep(s, n, maxBytes, size);
    assert done + ([last] + r.evicted) == (done + [last]) + r.evicted;
  }

  /** When the loop stops, nothing is still to come. */
  lemma EvictLoopExit<V>(s: seq<Entry<V>>, n: int, maxBytes: int, size: V -> nat, done: seq<Entry<V>>)
    requires !(maxBytes != 0 && maxBytes < n)
    ensures After(done, Evict(s, n, maxBytes, size)) == Eviction(s, n, done)
  {
    assert done + [] == done;
  }

  /** Appending to the log of a notifying cache, or leaving a silent one's log alone. */
  lemma LogStep<V>(log: seq<Entry<V>>, done: seq<Entry<V>>, e: Entry<V>, notify: bool)
    ensures (log + (if notify then done else [])) + (if notify then [e] else [])
            == log + (if notify then done + [e] else [])
  {
    if notify {
      assert (log + done) + [e] == log + (done + [e]);
    } else {
      assert log + [] == log;
    }
  }

  /** The complete effect of `Add(k, v)` on the list and the counter, as written. */
  function AddOutcome<V>(s: seq<Entry<V>>, n: int, maxBytes: int, k: GoString, v: V, size: V -> nat): Eviction<V>
  {
    Evict(Put(s, k, v), PutBytes(s, n, k, v, size), maxBytes, size)
  }

  // ---------------------------------------------------------------------------
  // Sums

  lemma {:induction false} SumConcat<V>(a: seq<Entry<V>>, b: seq<Entry<V>>, size: V -> nat)
    ensures Sum(a + b, size) == Sum(a, size) + Sum(b, size)
    decreases |b|
  {
    if b == [] {
      assert a + b == a;
    } else {
      var b' := b[..|b| - 1];
      assert (a + b)[..|a + b| - 1] == a + b';
      SumConcat(a, b', size);
    }
  }

  lemma SumCons<V>(e: Entry<V>, t: seq<Entry<V>>, size: V -> nat)
    ensures Sum([e] + t, size) == Bytes(e, size) + Sum(t, size)
  {
    SumConcat([e], t, size);
    assert [e][..0] == [];
  }

  // ---------------------------------------------------------------------------
  // Keys, lookup and map semantics

  lemma {:induction false} KeySetMembers<V>(s: seq<Entry<V>>, k: GoString)
    ensures k in KeySet(s) <==> exists i :: 0 <= i < |s| && s[i].key == k
  {
    if s != [] {
      KeySetMembers(s[1..], k);
      if k in KeySet(s[1..]) {
        var i :| 0 <= i < |s[1..]| && s[1..][i].key == k;
        assert s[i + 1].key == k;
      }
      if exists i :: 0 <= i < |s| && s[i].key == k {
        var i :| 0 <= i < |s| && s[i].key == k;
        if i > 0 { assert s[1..][i - 1].key == k; }
      }
    }
  }

  /** Distinct keys: the list has exactly as many entries as keys. */
  lemma {:induction false} KeySetSize<V>(s: seq<Entry<V>>)
    requires DistinctKeys(s)
    ensures |KeySet(s)| == |s|
  {
    if s != [] {
      KeySetMembers(s[1..], s[0].key);
      assert s[0].key !in KeySet(s[1..]) by {
        forall i | 0 <= i < |s[1..]| ensures s[1..][i].key != s[0].key {
          assert s[1..][i] == s[i + 1];
        }
      }
      KeySetSize(s[1..]);
    }
  }

  /** `Lookup` agrees with the dictionary the list denotes. */
  lemma {:induction false} LookupIsAsMap<V>(s: seq<Entry<V>>, k: GoString)
    ensures Lookup(s, k) == if k in AsMap(s) then Some(AsMap(s)[k]) else None
  {
    if s != [] && s[0].key != k {
      LookupIsAsMap(s[1..], k);
    }
  }

  lemma {:induction false} KeySetIsAsMapKeys<V>(s: seq<Entry<V>>)
    ensures KeySet(s) == AsMap(s).Keys
  {
    if s != [] {
      KeySetIsAsMapKeys(s[1..]);
    }
  }

  /** With distinct keys, the entry at index `i` is what a lookup of its key finds. */
  lemma {:induction false} LookupAt<V>(s: seq<Entry<V>>, i: nat)
    requires DistinctKeys(s)
    requires i < |s|
    ensures Lookup(s, s[i].key) == Some(s[i].value)
  {
    if i > 0 {
      assert s[1..][i - 1] == s[i];
      LookupAt(s[1..], i - 1);
    }
  }

  /** A key that no entry carries is not found. */
  lemma {:induction false} LookupAbsent<V>(s: seq<Entry<V>>, k: GoString)
    requires forall i :: 0 <= i < |s| ==> s[i].key != k
    ensures Lookup(s, k) == None
    ensures WithoutKey(s, k) == s
  {
    if s != [] {
      assert s[0].key != k;
      forall i | 0 <= i < |s[1..]| ensures s[1..][i].key != k {
        assert s[1..][i] == s[i + 1];
      }
      LookupAbsent(s[1..], k);
      assert s == [s[0]] + s[1..];
    }
  }

  lemma DistinctTail<V>(s: seq<Entry<V>>)
    requires DistinctKeys(s)
    requires s != []
    ensures DistinctKeys(s[1..])
    ensures forall i :: 0 <= i < |s[1..]| ==> s[1..][i].key != s[0].key
  {
    forall i, j | 0 <= i < j < |s[1..]| ensures s[1..][i].key != s[1..][j].key {
      assert s[1..][i] == s[i + 1] && s[1..][j] == s[j + 1];
    }
    forall i | 0 <= i < |s[1..]| ensures s[1..][i].key != s[0].key {
      assert s[1..][i] == s[i + 1];
    }
  }

  /** Unlinking `k` removes exactly the entries for `k`. */
  lemma {:induction false} WithoutKeyMembers<V>(s: seq<Entry<V>>, k: GoString)
    ensures forall e {:trigger e in WithoutKey(s, k)} :: e in WithoutKey(s, k) ==> e in s && e.key != k
    ensures forall e {:trigger e in s} :: e in s && e.key != k ==> e in WithoutKey(s, k)
  {
    if s != [] {
      WithoutKeyMembers(s[1..], k);
      assert s == [s[0]] + s[1..];
    }
  }

  lemma {:induction false} WithoutKeyDistinct<V>(s: seq<Entry<V>>, k: GoString)
    requires DistinctKeys(s)
    ensures DistinctKeys(WithoutKey(s, k))
  {
    if s != [] {
      DistinctTail(s);
      WithoutKeyDistinct(s[1..], k);
      if s[0].key != k {
        var w := WithoutKey(s[1..], k);
        WithoutKeyMembers(s[1..], k);
        forall j | 0 <= j < |w| ensures w[j].key != s[0].key {
          assert w[j] in w;
          assert w[j] in s[1..];
          var m :| 0 <= m < |s[1..]| && s[1..][m] == w[j];
        }
        var p := WithoutKey(s, k);
        assert p == [s[0]] + w;
        forall i, j | 0 <= i < j < |p| ensures p[i].key != p[j].key {
          if i == 0 {
            assert p[j] == w[j - 1];
          } else {
            assert p[i] == w[i - 1] && p[j] == w[j - 1];
          }
        }
      }
    }
  }

  /** A key that is not found is carried by no entry. */
  lemma {:induction false} LookupNoneAbsent<V>(s: seq<Entry<V>>, k: GoString)
    requires Lookup(s, k) == None
    ensures forall i :: 0 <= i < |s| ==> s[i].key != k
  {
    if s != [] {
      LookupNoneAbsent(s[1..], k);
      forall i | 0 < i < |s| ensures s[i].key != k {
        assert s[i] == s[1..][i - 1];
      }
    }
  }

  lemma {:induction false} AsMapWithoutKey<V>(s: seq<Entry<V>>, k: GoString)
    ensures AsMap(WithoutKey(s, k)) == AsMap(s) - {k}
  {
    if s != [] {
      var t := s[1..];
      AsMapWithoutKey(t, k);
      if s[0].key == k {
        assert WithoutKey(s, k) == WithoutKey(t, k);
        assert AsMap(s) - {k} == AsMap(t) - {k};
      } else {
        var w := WithoutKey(t, k);
        assert WithoutKey(s, k) == [s[0]] + w;
        assert ([s[0]] + w)[1..] == w;
        assert AsMap(WithoutKey(s, k)) == AsMap(w)[s[0].key := s[0].value];
        assert AsMap(w)[s[0].key := s[0].value] == AsMap(t)[s[0].key := s[0].value] - {k};
      }
    }
  }

  /** `Add`'s insert/update step: the dictionary gains or replaces exactly `k -> v`. */
  lemma PutIsMapUpdate<V>(s: seq<Entry<V>>, k: GoString, v: V)
    ensures AsMap(Put(s, k, v)) == AsMap(s)[k := v]
    ensures Lookup(Put(s, k, v), k) == Some(v)
    ensures forall k' :: k' != k ==> Lookup(Put(s, k, v), k') == Lookup(s, k')
  {
    AsMapWithoutKey(s, k);
    assert Put(s, k, v)[1..] == WithoutKey(s, k);
    forall k' | k' != k ensures Lookup(Put(s, k, v), k') == Lookup(s, k') {
      LookupIsAsMap(Put(s, k, v), k');
      LookupIsAsMap(s, k');
    }
  }

  /**
   * `Add`'s insert/update step keeps the keys distinct, puts `k` at the front,
   * and grows the list by one exactly when `k` was absent.
   */
  lemma PutShape<V>(s: seq<Entry<V>>, k: GoString, v: V)
    requires DistinctKeys(s)
    ensures DistinctKeys(Put(s, k, v))
    ensures Put(s, k, v)[0] == Entry(k, v)
    ensures KeySet(Put(s, k, v)) == KeySet(s) + {k}
    ensures |Put(s, k, v)| == if Lookup(s, k).Some? then |s| else |s| + 1
  {
    WithoutKeyMembers(s, k);
    WithoutKeyDistinct(s, k);
    var w := WithoutKey(s, k);
    var p := Put(s, k, v);
    assert p == [Entry(k, v)] + w;
    forall i, j | 0 <= i < j < |p| ensures p[i].key != p[j].key {
      if i == 0 {
        assert p[j] == w[j - 1];
        assert w[j - 1] in w;
        assert w[j - 1].key != k;
      } else {
        assert p[i] == w[i - 1] && p[j] == w[j - 1];
        assert w[i - 1].key != w[j - 1].key;
      }
    }
    PutIsMapUpdate(s, k, v);
    KeySetIsAsMapKeys(s);
    KeySetIsAsMapKeys(p);
    KeySetSize(s);
    KeySetSize(p);
    LookupIsAsMap(s, k);
  }

  /**
   * `Get(k)` on a hit: the entry found moves to the front, the others keep their
   * relative order, and the list is a permutation of the old one with the same
   * dictionary. On a miss the list is unchanged.
   */
  lemma TouchShape<V>(s: seq<Entry<V>>, k: GoString)
    requires DistinctKeys(s)
    ensures AsMap(Touch(s, k)) == AsMap(s)
    ensures DistinctKeys(Touch(s, k))
    ensures |Touch(s, k)| == |s|
    ensures Lookup(s, k).Some? ==> Touch(s, k)[0] == Entry(k, Lookup(s, k).value)
    ensures Lookup(s, k).Some? ==> Touch(s, k)[1..] == WithoutKey(s, k)
    ensures Lookup(s, k).None? ==> Touch(s, k) == s
    ensures multiset(Touch(s, k)) == multiset(s)
  {
    match Lookup(s, k)
    case None =>
    case Some(v) =>
      PutShape(s, k, v);
      PutIsMapUpdate(s, k, v);
      LookupIsAsMap(s, k);
      assert AsMap(s)[k := v] == AsMap(s);
      assert Touch(s, k) == Put(s, k, v);
      MultisetWithoutKey(s, k);
  }

  lemma {:induction false} MultisetWithoutKey<V>(s: seq<Entry<V>>, k: GoString)
    requires DistinctKeys(s)
    ensures Lookup(s, k).Some? ==> multiset(WithoutKey(s, k)) + multiset{Entry(k, Lookup(s, k).value)} == multiset(s)
  {
    if s != [] {
      var t := s[1..];
      assert s == [s[0]] + t;
      DistinctTail(s);
      if s[0].key == k {
        LookupAbsent(t, k);
        assert WithoutKey(s, k) == t;
      } else {
        MultisetWithoutKey(t, k);
        assert WithoutKey(s, k) == [s[0]] + WithoutKey(t, k);
      }
    }
  }

  // ---------------------------------------------------------------------------
  // Byte accounting

  /** With distinct keys, unlinking the entry for `k` releases exactly its bytes. */
  lemma {:induction false} SumWithoutKey<V>(s: seq<Entry<V>>, k: GoString, size: V -> nat)
    requires DistinctKeys(s)
    ensures Lookup(s, k).Some? ==>
              Sum(WithoutKey(s, k), size) == Sum(s, size) - Bytes(Entry(k, Lookup(s, k).value), size)
    ensures Lookup(s, k).None? ==> Sum(WithoutKey(s, k), size) == Sum(s, size)
  {
    if s != [] {
      var t := s[1..];
      assert s == [s[0]] + t;
      SumCons(s[0], t, size);
      DistinctTail(s);
      if s[0].key == k {
        LookupAbsent(t, k);
        assert WithoutKey(s, k) == t;
      } else {
        var w := WithoutKey(t, k);
        SumWithoutKey(t, k, size);
        assert WithoutKey(s, k) == [s[0]] + w;
        SumCons(s[0], w, size);
      }
    }
  }

  /**
   * The defect as written: when `k` is already present the counter is left as it
   * was, so the gap between the counter and the true sum of sizes grows by
   * `old.Len() - v.Len()`. When `k` is new the gap is unchanged.
   */
  lemma PutBytesDrift<V>(s: seq<Entry<V>>, n: int, k: GoString, v: V, size: V -> nat)
    requires DistinctKeys(s)
    ensures Lookup(s, k).Some? ==>
              PutBytes(s, n, k, v, size) - Sum(Put(s, k, v), size)
              == (n - Sum(s, size)) + size(Lookup(s, k).value) - size(v)
    ensures Lookup(s, k).None? ==>
              PutBytes(s, n, k, v, size) - Sum(Put(s, k, v), size) == n - Sum(s, size)
  {
    SumCons(Entry(k, v), WithoutKey(s, k), size);
    SumWithoutKey(s, k, size);
  }

  /** Whatever the drift, the insert/update step never makes the gap exceed the old counter. */
  lemma PutGapBound<V>(s: seq<Entry<V>>, n: int, k: GoString, v: V, size: V -> nat)
    requires DistinctKeys(s)
    ensures PutBytes(s, n, k, v, size) - Sum(Put(s, k, v), size) <= n
  {
    PutBytesDrift(s, n, k, v, size);
  }

  /** A concrete witness of the drift: re-adding a key with a shorter value. */
  lemma DriftWitness()
    ensures var size := (b: GoString) => |b|;
            var s := [Entry([107], [1, 2, 3, 4, 5])];
            Sum(s, size) == 6
            && PutBytes(s, 6, [107], [1], size) == 6
            && Sum(Put(s, [107], [1]), size) == 2
  {
    var size := (b: GoString) => |b|;
    var s := [Entry([107 as byte], [1 as byte, 2, 3, 4, 5])];
    PutBytesDrift(s, 6, [107], [1], size);
    assert Sum(s, size) == 6 by { assert s[..0] == []; }
  }

  /** The corrected counter: starting exact, it stays exact after the insert/update step. */
  lemma PutBytesFixedExact<V>(s: seq<Entry<V>>, k: GoString, v: V, size: V -> nat)
    requires DistinctKeys(s)
    ensures PutBytesFixed(s, Sum(s, size), k, v, size) == Sum(Put(s, k, v), size)
  {
    SumCons(Entry(k, v), WithoutKey(s, k), size);
    SumWithoutKey(s, k, size);
  }

  // ---------------------------------------------------------------------------
  // Eviction and the byte budget

  /**
   * When the gap between the counter and the true sum is within a non-zero budget,
   * the eviction loop ends within budget; and it stops as soon as it is: the last
   * entry it evicted was needed to get there.
   */
  lemma {:induction false} EvictWithinBudget<V>(s: seq<Entry<V>>, n: int, maxBytes: int, size: V -> nat)
    requires n - Sum(s, size) <= maxBytes
    ensures maxBytes != 0 ==> Evict(s, n, maxBytes, size).nBytes <= maxBytes
    ensures var r := Evict(s, n, maxBytes, size);
            r.evicted != [] ==> maxBytes < r.nBytes + Bytes(r.evicted[|r.evicted| - 1], size)
    decreases |s|
  {
    if maxBytes != 0 && maxBytes < n && s != [] {
      var last := s[|s| - 1];
      EvictWithinBudget(s[..|s| - 1], n - Bytes(last, size), maxBytes, size);
    }
  }

  /**
   * Least recently used first: when an entry is evicted, every entry behind it
   * (less recently used) was evicted before it.
   */
  lemma EvictOlderFirst<V>(s: seq<Entry<V>>, n: int, maxBytes: int, size: V -> nat, i: nat, j: nat)
    requires i < j < |s|
    requires i >= |Evict(s, n, maxBytes, size).kept|
    ensures var r := Evict(s, n, maxBytes, size);
            |s| - 1 - j < |s| - 1 - i < |r.evicted|
            && r.evicted[|s| - 1 - j] == s[j] && r.evicted[|s| - 1 - i] == s[i]
  {
    EvictShape(s, n, maxBytes, size);
  }

  /**
   * After `Add` the counter is within a non-zero budget, provided it was before.
   * This holds for the code as written, whatever the drift.
   */
  lemma AddKeepsBudget<V>(s: seq<Entry<V>>, n: int, maxBytes: int, k: GoString, v: V, size: V -> nat)
    requires DistinctKeys(s)
    requires 0 <= maxBytes
    requires maxBytes != 0 ==> n <= maxBytes
    ensures maxBytes != 0 ==> AddOutcome(s, n, maxBytes, k, v, size).nBytes <= maxBytes
  {
    if maxBytes != 0 {
      PutBytesDrift(s, n, k, v, size);
      match Lookup(s, k)
      case Some(_) =>
        assert PutBytes(s, n, k, v, size) == n;
      case None =>
      EvictWithinBudget(Put(s, k, v), PutBytes(s, n, k, v, size), maxBytes, size);
    }
  }

  /**
   * An entry read by `Get` just before an `Add` of another key sits right behind
   * the new entry; it is evicted only once every less recently used entry is.
   */
  lemma TouchedSurvivesAdd<V>(s: seq<Entry<V>>, n: int, maxBytes: int, k: GoString, k2: GoString, v: V, size: V -> nat)
    requires DistinctKeys(s)
    requires Lookup(s, k).Some?
    requires k2 != k
    ensures var t := Put(Touch(s, k), k2, v);
            var r := Evict(t, n, maxBytes, size);
            t[1].key == k
            && (k in KeySet(r.kept) || |r.kept| <= 1)
  {
    TouchShape(s, k);
    var t0 := Touch(s, k);
    var t := Put(t0, k2, v);
    PutShape(t0, k2, v);
    WithoutKeyMembers(t0, k2);
    assert t0[0] in WithoutKey(t0, k2);
    assert t[1..] == WithoutKey(t0, k2);
    var w := WithoutKey(t0, k2);
    assert w[0] == t0[0] by {
      assert t0 == [t0[0]] + t0[1..];
      assert w == [t0[0]] + WithoutKey(t0[1..], k2);
    }
    var r := Evict(t, n, maxBytes, size);
    EvictShape(t, n, maxBytes, size);
    if |r.kept| > 1 {
      assert r.kept[1] == t[1];
      KeySetMembers(r.kept, k);
    }
  }
}
