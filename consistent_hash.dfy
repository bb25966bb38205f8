/**
 * The consistent-hash ring of `consistenthash/consistenthash.go`.
 *
 * Each owner added to the ring gets `replicas` virtual nodes at the hash values
 * `hash(Itoa(i) + owner)`, `0 <= i < replicas`. The ring is the sorted slice `keys`
 * of all those values (duplicates kept), and `hashMap` maps each value to the owner
 * written for it last. `Get` routes a key to the first ring value at or after the
 * key's hash, wrapping around to the first value.
 */
module ConsistentHash {
  import opened GoTypes

  /** A `consistenthash.Hash`: a function from bytes to a 32-bit unsigned value. */
  type Hash = GoString -> uint32

  // ---------------------------------------------------------------------------
  // strconv.Itoa on the replica numbers

  /** The ASCII byte of one decimal digit. */
  function DigitByte(d: nat): byte
    requires d < 10
  {
    (48 + d) as byte
  }

  /** Whether every byte is an ASCII decimal digit. */
  predicate AllDigits(s: GoString)
  {
    forall i :: 0 <= i < |s| ==> 48 <= s[i] <= 57
  }

  /** The value of a string of decimal digits, most significant first. */
  function Decimal(s: GoString): nat
    requires AllDigits(s)
  {
    if s == [] then 0 else 10 * Decimal(s[..|s| - 1]) + (s[|s| - 1] as int - 48)
  }

  /** `strconv.Itoa(i)` for a non-negative `i`: its decimal digits, without leading zeros. */
  function Itoa(i: nat): (s: GoString)
    ensures s != [] && AllDigits(s)
    ensures s[0] == 48 ==> s == [48] && i == 0
    ensures Decimal(s) == i
  {
    if i < 10 then [DigitByte(i)] else Itoa(i / 10) + [DigitByte(i % 10)]
  }

  /** Different replica numbers give different virtual-node names. */
  lemma ItoaInjective(i: nat, j: nat)
    requires Itoa(i) == Itoa(j)
    ensures i == j
  {
    assert Decimal(Itoa(i)) == Decimal(Itoa(j));
  }

  // ---------------------------------------------------------------------------
  // What Add writes

  /** The loop bound `i < m.replicas`: a negative replica count runs no iterations. */
  function Reps(replicas: int): nat
  {
    if replicas < 0 then 0 else replicas
  }

  /** The hash value of virtual node `i` of `owner`, as `int(m.hash([]byte(strconv.Itoa(i) + key)))`. */
  function NodeHash(hash: Hash, owner: GoString, i: nat): int
  {
    hash(Itoa(i) + owner) as int
  }

  /** The values appended for one owner by the inner loop after `r` iterations, in order. */
  function OwnerNodes(hash: Hash, owner: GoString, r: nat): seq<int>
  {
    if r == 0 then [] else OwnerNodes(hash, owner, r - 1) + [NodeHash(hash, owner, r - 1)]
  }

  /** The values appended for a list of owners, in order. */
  function Nodes(hash: Hash, owners: seq<GoString>, r: nat): seq<int>
  {
    if owners == [] then [] else Nodes(hash, owners[..|owners| - 1], r) + OwnerNodes(hash, owners[|owners| - 1], r)
  }

  /** `hashMap` after the inner loop for one owner has run `r` iterations. */
  function RecordOwner(hm: map<int, GoString>, hash: Hash, owner: GoString, r: nat): map<int, GoString>
  {
    if r == 0 then hm else RecordOwner(hm, hash, owner, r - 1)[NodeHash(hash, owner, r - 1) := owner]
  }

  /** `hashMap` after the writes for a list of owners; a later write to the same value wins. */
  function Record(hm: map<int, GoString>, hash: Hash, owners: seq<GoString>, r: nat): map<int, GoString>
  {
    if owners == [] then hm
    else RecordOwner(Record(hm, hash, owners[..|owners| - 1], r), hash, owners[|owners| - 1], r)
  }

  /** One owner contributes exactly its `r` virtual nodes `0 .. r-1`. */
  lemma {:induction false} OwnerNodesShape(hash: Hash, owner: GoString, r: nat)
    ensures |OwnerNodes(hash, owner, r)| == r
    ensures forall i :: 0 <= i < r ==> OwnerNodes(hash, owner, r)[i] == NodeHash(hash, owner, i)
  {
    if r > 0 {
      OwnerNodesShape(hash, owner, r - 1);
    }
  }

  /** `Add(owners...)` appends exactly `replicas × |owners|` values. */
  lemma {:induction false} NodesCount(hash: Hash, owners: seq<GoString>, r: nat)
    ensures |Nodes(hash, owners, r)| == r * |owners|
  {
    if owners != [] {
      var front := owners[..|owners| - 1];
      NodesCount(hash, front, r);
      OwnerNodesShape(hash, owners[|owners| - 1], r);
      assert |Nodes(hash, owners, r)| == r * |front| + r;
      assert r * |owners| == r * (|front| + 1) == r * |front| + r;
    }
  }

  /** Every virtual node of every added owner is among the appended values, and nothing else is. */
  lemma {:induction false} NodesMembers(hash: Hash, owners: seq<GoString>, r: nat)
    ensures forall o, i :: o in owners && 0 <= i < r ==> NodeHash(hash, o, i) in Nodes(hash, owners, r)
    ensures forall h :: h in Nodes(hash, owners, r) ==>
              exists o, i :: o in owners && 0 <= i < r && h == NodeHash(hash, o, i)
  {
    if owners != [] {
      var front := owners[..|owners| - 1];
      var last := owners[|owners| - 1];
      NodesMembers(hash, front, r);
      OwnerNodesShape(hash, last, r);
      var own := OwnerNodes(hash, last, r);
      assert Nodes(hash, owners, r) == Nodes(hash, front, r) + own;
      forall o, i | o in owners && 0 <= i < r ensures NodeHash(hash, o, i) in Nodes(hash, owners, r) {
        if o == last {
          assert own[i] == NodeHash(hash, o, i);
        } else {
          assert o in front by {
            var k :| 0 <= k < |owners| && owners[k] == o;
            assert front[k] == o;
          }
        }
      }
      forall h | h in Nodes(hash, owners, r) ensures exists o, i :: o in owners && 0 <= i < r && h == NodeHash(hash, o, i) {
        if h in own {
          var i :| 0 <= i < r && own[i] == h;
          assert last in owners;
        } else {
          var o, i :| o in front && 0 <= i < r && h == NodeHash(hash, o, i);
          assert o in owners;
        }
      }
    }
  }

  /** The inner loop's writes add exactly the owner's virtual-node values to the map's keys. */
  lemma {:induction false} RecordOwnerKeys(hm: map<int, GoString>, hash: Hash, owner: GoString, r: nat)
    ensures RecordOwner(hm, hash, owner, r).Keys == hm.Keys + (set h | h in OwnerNodes(hash, owner, r))
  {
    if r > 0 {
      RecordOwnerKeys(hm, hash, owner, r - 1);
      var own0 := OwnerNodes(hash, owner, r - 1);
      var own := OwnerNodes(hash, owner, r);
      assert own == own0 + [NodeHash(hash, owner, r - 1)];
      assert (set h | h in own) == (set h | h in own0) + {NodeHash(hash, owner, r - 1)};
    }
  }

  /** The inner loop's writes: the values written now map to `owner`; the others keep their old owner. */
  lemma {:induction false} RecordOwnerShape(hm: map<int, GoString>, hash: Hash, owner: GoString, r: nat)
    ensures forall h :: h in OwnerNodes(hash, owner, r) ==>
              h in RecordOwner(hm, hash, owner, r) && RecordOwner(hm, hash, owner, r)[h] == owner
    ensures forall h :: h in hm && h !in OwnerNodes(hash, owner, r) ==>
              h in RecordOwner(hm, hash, owner, r) && RecordOwner(hm, hash, owner, r)[h] == hm[h]
  {
    if r > 0 {
      RecordOwnerShape(hm, hash, owner, r - 1);
      var x := NodeHash(hash, owner, r - 1);
      assert OwnerNodes(hash, owner, r) == OwnerNodes(hash, owner, r - 1) + [x];
    }
  }

  /** `Add(owners...)` adds exactly the appended values to the map's keys; any other value keeps its owner. */
  lemma {:induction false} RecordKeys(hm: map<int, GoString>, hash: Hash, owners: seq<GoString>, r: nat)
    ensures Record(hm, hash, owners, r).Keys == hm.Keys + (set h | h in Nodes(hash, owners, r))
    ensures forall h :: h in hm && h !in Nodes(hash, owners, r) ==> Record(hm, hash, owners, r)[h] == hm[h]
  {
    if owners != [] {
      var front := owners[..|owners| - 1];
      var last := owners[|owners| - 1];
      var before := Record(hm, hash, front, r);
      RecordKeys(hm, hash, front, r);
      RecordOwnerKeys(before, hash, last, r);
      RecordOwnerShape(before, hash, last, r);
      var own := OwnerNodes(hash, last, r);
      var nodes := Nodes(hash, owners, r);
      assert nodes == Nodes(hash, front, r) + own;
      forall h ensures h in nodes <==> h in Nodes(hash, front, r) || h in own {
      }
      assert (set h | h in nodes) == (set h | h in Nodes(hash, front, r)) + (set h | h in own);
    }
  }

  /** Owner `owners[k]` has a virtual node at `h`, and no owner after it in the list has one there. */
  predicate WrittenLast(hash: Hash, owners: seq<GoString>, r: nat, k: int, h: int)
  {
    && 0 <= k < |owners|
    && h in OwnerNodes(hash, owners[k], r)
    && forall k' :: k < k' < |owners| ==> h !in OwnerNodes(hash, owners[k'], r)
  }

  /** Dropping the last owner keeps the last writer of a value the last owner does not write. */
  lemma WrittenLastFront(hash: Hash, owners: seq<GoString>, r: nat, k: int, h: int)
    requires WrittenLast(hash, owners, r, k, h) && k < |owners| - 1
    ensures WrittenLast(hash, owners[..|owners| - 1], r, k, h)
    ensures h !in OwnerNodes(hash, owners[|owners| - 1], r)
  {
    var front := owners[..|owners| - 1];
    forall k' | k < k' < |front| ensures h !in OwnerNodes(hash, front[k'], r) {
      assert front[k'] == owners[k'];
    }
  }

  /**
   * Last writer wins: after `Add(owners...)`, a value that some added owner's virtual
   * node hashes to maps to the LAST such owner in argument order.
   */
  lemma {:induction false} RecordLastWins(hm: map<int, GoString>, hash: Hash, owners: seq<GoString>, r: nat)
    ensures forall k, h :: WrittenLast(hash, owners, r, k, h) ==>
              h in Record(hm, hash, owners, r) && Record(hm, hash, owners, r)[h] == owners[k]
  {
    if owners != [] {
      var front := owners[..|owners| - 1];
      var last := owners[|owners| - 1];
      var before := Record(hm, hash, front, r);
      var after := Record(hm, hash, owners, r);
      RecordLastWins(hm, hash, front, r);
      RecordOwnerShape(before, hash, last, r);
      assert after == RecordOwner(before, hash, last, r);
      forall k, h | WrittenLast(hash, owners, r, k, h) ensures h in after && after[h] == owners[k] {
        if k < |owners| - 1 {
          WrittenLastFront(hash, owners, r, k, h);
          assert front[k] == owners[k];
        }
      }
    }
  }

  /** Every owner in the map after `Add(owners...)` was in it before or is one of `owners`. */
  lemma {:induction false} RecordOwners(hm: map<int, GoString>, hash: Hash, owners: seq<GoString>, r: nat)
    ensures forall h :: h in Record(hm, hash, owners, r) ==>
              (h in hm && Record(hm, hash, owners, r)[h] == hm[h]) || Record(hm, hash, owners, r)[h] in owners
  {
    if owners != [] {
      var front := owners[..|owners| - 1];
      var last := owners[|owners| - 1];
      var before := Record(hm, hash, front, r);
      var after := Record(hm, hash, owners, r);
      RecordOwners(hm, hash, front, r);
      RecordOwnerKeys(before, hash, last, r);
      RecordOwnerShape(before, hash, last, r);
      assert after == RecordOwner(before, hash, last, r);
      forall h | h in after ensures (h in hm && after[h] == hm[h]) || after[h] in owners {
        if h in OwnerNodes(hash, last, r) {
          assert after[h] == owners[|owners| - 1];
        } else {
          assert after[h] == before[h];
          if before[h] in front {
            var k :| 0 <= k < |front| && front[k] == before[h];
            assert owners[k] == front[k];
          }
        }
      }
    }
  }

  // ---------------------------------------------------------------------------
  // sort.Ints

  /** Ascending order, duplicates allowed. */
  predicate Sorted(s: seq<int>)
  {
    forall i, j :: 0 <= i < j < |s| ==> s[i] <= s[j]
  }

  /** Insert `x` into a sorted sequence, after the values smaller than it. */
  function InsertSorted(x: int, s: seq<int>): (r: seq<int>)
    requires Sorted(s)
    ensures Sorted(r) && multiset(r) == multiset(s) + multiset{x}
  {
    if s == [] || x <= s[0] then
      SortedCons(x, s);
      [x] + s
    else
      var t := InsertSorted(x, s[1..]);
      InsertStep(x, s, t);
      [s[0]] + t
  }

  /** A value at most every element of a sorted sequence can go in front of it. */
  lemma SortedCons(x: int, s: seq<int>)
    requires Sorted(s)
    requires s == [] || x <= s[0]
    ensures Sorted([x] + s)
  {
    var r := [x] + s;
    forall i, j | 0 <= i < j < |r| ensures r[i] <= r[j] {
      if i == 0 {
        assert r[j] == s[j - 1];
        assert s[0] <= s[j - 1];
      } else {
        assert r[i] == s[i - 1] && r[j] == s[j - 1];
      }
    }
  }

  /** The recursive step of `InsertSorted`: the head of `s` stays in front. */
  lemma InsertStep(x: int, s: seq<int>, t: seq<int>)
    requires Sorted(s) && s != [] && s[0] < x
    requires Sorted(t) && multiset(t) == multiset(s[1..]) + multiset{x}
    ensures Sorted([s[0]] + t) && multiset([s[0]] + t) == multiset(s) + multiset{x}
  {
    assert s == [s[0]] + s[1..];
    forall j | 0 <= j < |t| ensures s[0] <= t[j] {
      assert t[j] in multiset(t);
      if t[j] != x {
        assert t[j] in multiset(s[1..]);
        var k :| 0 <= k < |s[1..]| && s[1..][k] == t[j];
        assert s[k + 1] == t[j];
      }
    }
    if t != [] {
      SortedCons(s[0], t);
    }
  }

  /** `sort.Ints`: the ascending permutation of the values. */
  function SortInts(s: seq<int>): (r: seq<int>)
    ensures Sorted(r) && multiset(r) == multiset(s)
  {
    if s == [] then []
    else
      assert s == s[..|s| - 1] + [s[|s| - 1]];
      InsertSorted(s[|s| - 1], SortInts(s[..|s| - 1]))
  }

  /** The first element of a sorted sequence is at most each of its elements. */
  lemma SortedHead(s: seq<int>, x: int)
    requires Sorted(s) && x in multiset(s)
    ensures s != [] && s[0] <= x
  {
    var i :| 0 <= i < |s| && s[i] == x;
    assert s[0] <= s[i];
  }

  /** Removing the head of a sorted sequence keeps it sorted and removes one copy of the head from its multiset. */
  lemma SortedTail(s: seq<int>)
    requires Sorted(s) && s != []
    ensures Sorted(s[1..]) && multiset(s[1..]) == multiset(s) - multiset{s[0]}
  {
    assert s == [s[0]] + s[1..];
    forall i, j | 0 <= i < j < |s[1..]| ensures s[1..][i] <= s[1..][j] {
      assert s[1..][i] == s[i + 1] && s[1..][j] == s[j + 1];
    }
  }

  /** Two sorted arrangements of one multiset start with the same value. */
  lemma SameHead(a: seq<int>, b: seq<int>)
    requires Sorted(a) && Sorted(b) && multiset(a) == multiset(b) && a != []
    ensures b != [] && a[0] == b[0]
  {
    assert a[0] in multiset(a);
    SortedHead(b, a[0]);
    SortedHead(a, b[0]);
  }

  /**
   * A multiset has only one ascending arrangement, so any correct sort (Go uses
   * pattern-defeating quicksort) leaves exactly the `SortInts` result.
   */
  lemma {:induction false} SortedUnique(a: seq<int>, b: seq<int>)
    requires Sorted(a) && Sorted(b) && multiset(a) == multiset(b)
    ensures a == b
    decreases |a|
  {
    if a != [] {
      SameHead(a, b);
      SortedTail(a);
      SortedTail(b);
      SortedUnique(a[1..], b[1..]);
      assert a == [a[0]] + a[1..];
      assert b == [b[0]] + b[1..];
    } else {
      assert |multiset(b)| == 0;
    }
  }

  // ---------------------------------------------------------------------------
  // sort.Search over the ring, and the linear reference

  /**
   * `sort.Search(len(keys), func(i) bool { return keys[i] >= h })` on the
   * remaining window `[i, j)`: bisect, keeping `f` false below `i` and true from `j`.
   */
  function Search(keys: seq<int>, h: int, i: nat, j: nat): (r: nat)
    requires i <= j <= |keys|
    ensures i <= r <= j
    decreases j - i
  {
    if i < j then
      var mid := (i + j) / 2;
      if !(keys[mid] >= h) then Search(keys, h, mid + 1, j) else Search(keys, h, i, mid)
    else i
  }

  /** Reference definition: the least index whose value is at least `h`, or `|keys|` if none is. */
  function FirstAtLeast(keys: seq<int>, h: int): (r: nat)
    ensures r <= |keys|
    ensures forall k :: 0 <= k < r ==> keys[k] < h
    ensures r < |keys| ==> keys[r] >= h
  {
    if keys == [] then 0 else if keys[0] >= h then 0 else 1 + FirstAtLeast(keys[1..], h)
  }

  /**
   * On a sorted ring the binary search finds the least index at or above `h`:
   * with `f` false below `i` and true from `j` on, the window keeps the answer.
   */
  lemma {:induction false} SearchFindsFirst(keys: seq<int>, h: int, i: nat, j: nat)
    requires Sorted(keys) && i <= j <= |keys|
    requires forall k :: 0 <= k < i ==> keys[k] < h
    requires forall k :: j <= k < |keys| ==> keys[k] >= h
    ensures Search(keys, h, i, j) == FirstAtLeast(keys, h)
    decreases j - i
  {
    if i < j {
      var mid := (i + j) / 2;
      if !(keys[mid] >= h) {
        forall k | 0 <= k < mid + 1 ensures keys[k] < h {
          assert keys[k] <= keys[mid];
        }
        SearchFindsFirst(keys, h, mid + 1, j);
      } else {
        forall k | mid <= k < |keys| ensures keys[k] >= h {
          assert keys[mid] <= keys[k];
        }
        SearchFindsFirst(keys, h, i, mid);
      }
    } else {
      FirstAtLeastIs(keys, h, i);
    }
  }

  /** The routing rule on a ring: the value at the first index at or above `h`, or the first value if there is none. */
  function Successor(keys: seq<int>, h: int): int
    requires |keys| > 0
  {
    var f := FirstAtLeast(keys, h);
    keys[if f < |keys| then f else 0]
  }

  /**
   * Independent description of the routing target, by values alone: the least ring
   * value at or above `h`; or, when every value is below `h`, the least value (the wraparound).
   */
  predicate IsSuccessor(keys: seq<int>, h: int, v: int)
  {
    && v in keys
    && (|| (h <= v && forall w :: w in keys && h <= w ==> v <= w)
        || (forall w :: w in keys ==> w < h && v <= w))
  }

  /** On a sorted ring, `Successor` picks exactly the value `IsSuccessor` describes. */
  lemma SuccessorIs(keys: seq<int>, h: int, v: int)
    requires Sorted(keys) && |keys| > 0
    ensures Successor(keys, h) == v <==> IsSuccessor(keys, h, v)
  {
    var f := FirstAtLeast(keys, h);
    var s := Successor(keys, h);
    if f < |keys| {
      forall w | w in keys && h <= w ensures s <= w {
        var i :| 0 <= i < |keys| && keys[i] == w;
        assert !(i < f);
      }
      assert IsSuccessor(keys, h, s);
    } else {
      forall w | w in keys ensures w < h && s <= w {
        var i :| 0 <= i < |keys| && keys[i] == w;
        assert keys[0] <= keys[i];
      }
      assert IsSuccessor(keys, h, s);
    }
    if IsSuccessor(keys, h, v) {
      assert v <= s && s <= v;
    }
  }

  /** The owner recorded for a ring value; a missing value reads as Go's zero string. */
  function OwnerOf(hm: map<int, GoString>, v: int): GoString
  {
    if v in hm then hm[v] else []
  }

  class Map {
    /** The hash in use: the injected one, or the default checksum. */
    const hash: Hash
    /** The number of virtual nodes per owner. */
    const replicas: int
    /** The ring: all virtual-node values, ascending, duplicates kept. */
    var keys: seq<int>
    /** From virtual-node value to the owner written for it last. */
    var hashMap: map<int, GoString>
    /** Every owner passed to `Add` so far, in order. */
    ghost var added: seq<GoString>

    /** The ring is sorted, `keys` and `hashMap` hold the same values, and every owner in the map was added. */
    ghost predicate Valid()
      reads this
    {
      && Sorted(keys)
      && (forall i :: 0 <= i < |keys| ==> keys[i] in hashMap)
      && (forall h :: h in hashMap ==> h in keys)
      && (forall h :: h in hashMap ==> hashMap[h] in added)
    }

    /**
     * `New(replicas, fn)`. `checksum` stands for `crc32.ChecksumIEEE`, used when
     * `fn` is nil (`None`); an injected function is used unchanged.
     */
    constructor (replicas: int, fn: Option<Hash>, checksum: Hash)
      ensures Valid()
      ensures hash == (if fn.Some? then fn.value else checksum)
      ensures this.replicas == replicas
      ensures keys == [] && hashMap == map[] && added == []
    {
      var h: Hash := checksum;
      if fn.Some? {
        h := fn.value;
      }
      this.hash := h;
      this.replicas := replicas;
      this.keys := [];
      this.hashMap := map[];
      this.added := [];
    }

    /**
     * `Add(owners...)`: append every virtual node of every owner to the ring and
     * record its owner, then sort the ring.
     */
    method Add(owners: seq<GoString>)
      requires Valid()
      modifies this
      ensures Valid()
      ensures Sorted(keys) && multiset(keys) == multiset(old(keys)) + multiset(Nodes(hash, owners, Reps(replicas)))
      ensures keys == SortInts(old(keys) + Nodes(hash, owners, Reps(replicas)))
      ensures hashMap == Record(old(hashMap), hash, owners, Reps(replicas))
      ensures added == old(added) + owners
    {
      ghost var r := Reps(replicas);
      ghost var keys0, hm0 := keys, hashMap;
      var o := 0;
      while o < |owners|
        invariant 0 <= o <= |owners|
        invariant keys == keys0 + Nodes(hash, owners[..o], r)
        invariant hashMap == Record(hm0, hash, owners[..o], r)
        invariant added == old(added)
      {
        AddReplicas(owners[o]);
        AddStep(hash, keys0, hm0, owners, o, r);
        o := o + 1;
      }
      assert owners[..|owners|] == owners;
      keys := SortInts(keys);
      added := added + owners;
      AddKeepsValid(keys0, hm0, old(added), hash, owners, r, keys, hashMap, added);
    }

    /** The inner loop of `Add`: append and record the `replicas` virtual nodes of one owner. */
    method AddReplicas(owner: GoString)
      modifies this
      ensures keys == old(keys) + OwnerNodes(hash, owner, Reps(replicas))
      ensures hashMap == RecordOwner(old(hashMap), hash, owner, Reps(replicas))
      ensures added == old(added)
    {
      var i := 0;
      while i < replicas
        invariant 0 <= i <= Reps(replicas)
        invariant keys == old(keys) + OwnerNodes(hash, owner, i)
        invariant hashMap == RecordOwner(old(hashMap), hash, owner, i)
        invariant added == old(added)
      {
        var h := hash(Itoa(i) + owner) as int;
        keys := keys + [h];
        hashMap := hashMap[h := owner];
        i := i + 1;
      }
      assert i == Reps(replicas);
    }

    /**
     * `Get(key)`: the empty key routes to `""`; otherwise the owner of the first
     * ring value at or after `hash(key)`, wrapping around to the first value.
     * A non-empty key on an empty ring panics in Go (`idx % 0`).
     */
    function Get(key: GoString): (owner: GoString)
      reads this
      requires key == [] || |keys| > 0
      ensures key == [] ==> owner == []
      ensures key != [] && Sorted(keys) ==> owner == OwnerOf(hashMap, Successor(keys, hash(key) as int))
      ensures key != [] && Valid() ==> owner in added
    {
      if |key| == 0 then []
      else
        var h := hash(key) as int;
        var idx := Search(keys, h, 0, |keys|);
        SearchIsFirstAtLeast(keys, h);
        ModWrap(idx, |keys|);
        OwnerOf(hashMap, keys[idx % |keys|])
    }
  }

  /** One turn of the outer loop of `Add` appends and records the nodes of one more owner. */
  lemma AddStep(hash: Hash, keys0: seq<int>, hm0: map<int, GoString>, owners: seq<GoString>, o: nat, r: nat)
    requires o < |owners|
    ensures keys0 + Nodes(hash, owners[..o], r) + OwnerNodes(hash, owners[o], r) == keys0 + Nodes(hash, owners[..o + 1], r)
    ensures RecordOwner(Record(hm0, hash, owners[..o], r), hash, owners[o], r) == Record(hm0, hash, owners[..o + 1], r)
  {
    assert owners[..o + 1][..o] == owners[..o];
  }

  /** After `Add` the ring and the map hold the same values, and every owner in the map is an added one. */
  lemma AddKeepsValid(keys0: seq<int>, hm0: map<int, GoString>, added0: seq<GoString>, hash: Hash,
                      owners: seq<GoString>, r: nat,
                      keys: seq<int>, hashMap: map<int, GoString>, added: seq<GoString>)
    requires forall i :: 0 <= i < |keys0| ==> keys0[i] in hm0
    requires forall h :: h in hm0 ==> h in keys0
    requires forall h :: h in hm0 ==> hm0[h] in added0
    requires multiset(keys) == multiset(keys0) + multiset(Nodes(hash, owners, r))
    requires hashMap == Record(hm0, hash, owners, r)
    requires added == added0 + owners
    ensures forall i :: 0 <= i < |keys| ==> keys[i] in hashMap
    ensures forall h :: h in hashMap ==> h in keys
    ensures forall h :: h in hashMap ==> hashMap[h] in added
  {
    var nodes := Nodes(hash, owners, r);
    RecordKeys(hm0, hash, owners, r);
    RecordOwners(hm0, hash, owners, r);
    forall h ensures h in keys <==> h in keys0 || h in nodes {
      assert h in keys <==> h in multiset(keys);
      assert h in keys0 <==> h in multiset(keys0);
      assert h in nodes <==> h in multiset(nodes);
    }
    forall i | 0 <= i < |keys| ensures keys[i] in hashMap {
      assert keys[i] in keys;
    }
    forall h | h in hashMap ensures hashMap[h] in added {
      if h in hm0 && hashMap[h] == hm0[h] {
        var k :| 0 <= k < |added0| && added0[k] == hm0[h];
        assert added[k] == added0[k];
      } else {
        var k :| 0 <= k < |owners| && owners[k] == hashMap[h];
        assert added[|added0| + k] == owners[k];
      }
    }
  }

  /** On a sorted ring, the binary search of `Get` agrees with the linear reference. */
  lemma SearchIsFirstAtLeast(keys: seq<int>, h: int)
    ensures Sorted(keys) ==> Search(keys, h, 0, |keys|) == FirstAtLeast(keys, h)
  {
    if Sorted(keys) {
      SearchFindsFirst(keys, h, 0, |keys|);
    }
  }

  /** `FirstAtLeast` is the unique index below which every value is smaller and at which the value is not. */
  lemma {:induction false} FirstAtLeastIs(keys: seq<int>, h: int, j: nat)
    requires j <= |keys|
    requires forall k :: 0 <= k < j ==> keys[k] < h
    requires j < |keys| ==> keys[j] >= h
    ensures FirstAtLeast(keys, h) == j
  {
    if keys != [] && keys[0] < h {
      assert j > 0;
      forall k | 0 <= k < j - 1 ensures keys[1..][k] < h {
        assert keys[1..][k] == keys[k + 1];
      }
      FirstAtLeastIs(keys[1..], h, j - 1);
    }
  }

  /**
   * The successor rule for `Get`: a non-empty key on a sorted ring routes to the
   * owner of the least ring value at or above its hash, wrapping to the least value.
   */
  lemma GetIsSuccessor(m: Map, key: GoString, v: int)
    requires key != [] && Sorted(m.keys) && IsSuccessor(m.keys, m.hash(key) as int, v)
    ensures |m.keys| > 0 && m.Get(key) == OwnerOf(m.hashMap, v)
  {
    SuccessorIs(m.keys, m.hash(key) as int, v);
  }

  /** `idx % len(keys)` for `0 <= idx <= len(keys)`: the index itself, or 0 once the search runs off the end. */
  lemma ModWrap(i: nat, n: nat)
    requires 0 < n && i <= n
    ensures i % n == (if i < n then i else 0)
  {
  }
}
