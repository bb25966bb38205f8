/**
 * The routing example of `consistenthash/consitenthash_test.go`: a ring with three
 * virtual nodes per owner and a hash that reads the node name as a decimal number.
 */
module ConsistentHashTest {
  import opened GoTypes
  import opened ConsistentHash

  /** Go's `int` is 64 bits wide here, and `strconv.ParseUint` works on 64-bit values. */
  const MinInt64: int := -0x8000_0000_0000_0000
  const MaxInt64: int := 0x7FFF_FFFF_FFFF_FFFF
  const MaxUint64: int := 0xFFFF_FFFF_FFFF_FFFF

  /** Saturate a value to the range of a 64-bit `int`, as `strconv.ParseInt` does on a range error. */
  function Clamp64(v: int): (r: int)
    ensures MinInt64 <= r <= MaxInt64
    ensures MinInt64 <= v <= MaxInt64 ==> r == v
    ensures v < MinInt64 ==> r == MinInt64
    ensures v > MaxInt64 ==> r == MaxInt64
  {
    if v < MinInt64 then MinInt64 else if v > MaxInt64 then MaxInt64 else v
  }

  /** `10^n`. */
  function Pow10(n: nat): nat
  {
    if n == 0 then 1 else 10 * Pow10(n - 1)
  }

  lemma {:induction false} Pow10Mono(m: nat, n: nat)
    requires m <= n
    ensures Pow10(m) <= Pow10(n)
    decreases n
  {
    if m < n {
      Pow10Mono(m, n - 1);
    }
  }

  lemma {:induction false} Pow10Add(a: nat, b: nat)
    ensures Pow10(a + b) == Pow10(a) * Pow10(b)
    decreases b
  {
    if b > 0 {
      Pow10Add(a, b - 1);
      assert Pow10(a + b) == 10 * Pow10(a + b - 1);
    }
  }

  /** `n` decimal digits denote a value below `10^n`. */
  lemma {:induction false} DecimalBound(s: GoString)
    requires AllDigits(s)
    ensures Decimal(s) < Pow10(|s|)
  {
    if s != [] {
      DecimalBound(s[..|s| - 1]);
    }
  }

  /** At most 18 digits fit a 64-bit `int`. */
  lemma ShortDecimal(s: GoString)
    requires AllDigits(s) && |s| <= 18
    ensures Decimal(s) < 1_000_000_000_000_000_000
  {
    DecimalBound(s);
    Pow10Mono(|s|, 18);
    assert Pow10(9) == 1_000_000_000;
    Pow10Add(9, 9);
  }

  /** The outcome of `strconv.ParseUint(s, 10, 64)`: a value, a syntax error, or a range error. */
  datatype UintParse = Parsed(n: nat) | SyntaxError | RangeError

  /**
   * The digit loop of `ParseUint(s, 10, 64)` after it has read all of `s`: it stops
   * at the first byte that is not a decimal digit (a syntax error) or at the first
   * digit that takes the value past 2^64 - 1 (a range error), whichever comes first.
   */
  function ScanDigits(s: GoString): (r: UintParse)
    ensures r.Parsed? ==> r.n <= MaxUint64
  {
    if s == [] then Parsed(0)
    else
      match ScanDigits(s[..|s| - 1])
      case Parsed(n) =>
        var c := s[|s| - 1];
        if !(48 <= c <= 57) then SyntaxError
        else if 10 * n + (c as int - 48) > MaxUint64 then RangeError
        else Parsed(10 * n + (c as int - 48))
      case other => other
  }

  /** `strconv.ParseUint(s, 10, 64)`: the empty string is a syntax error. */
  function ParseUint(s: GoString): UintParse
  {
    if s == [] then SyntaxError else ScanDigits(s)
  }

  /**
   * `strconv.ParseInt(s, 10, 0)` with its error discarded: an optional sign, then
   * `ParseUint`; a syntax error yields 0, an out-of-range value the nearer bound.
   */
  function ParseInt(s: GoString): (i: int)
    ensures MinInt64 <= i <= MaxInt64
  {
    if s == [] then 0
    else
      var neg := s[0] == 45;
      var rest := if s[0] == 43 || s[0] == 45 then s[1..] else s;
      match ParseUint(rest)
      case SyntaxError => 0
      case RangeError => if neg then MinInt64 else MaxInt64
      case Parsed(un) => Clamp64(if neg then -(un as int) else un)
  }

  /**
   * `strconv.Atoi(s)` with its error discarded: strings of 1 to 18 bytes take the
   * fast path, the others go through `ParseInt`.
   */
  function Atoi(s: GoString): (i: int)
    ensures MinInt64 <= i <= MaxInt64
  {
    if 0 < |s| < 19 then AtoiFast(s) else ParseInt(s)
  }

  /**
   * The fast path of `Atoi`: an optional `+` or `-`, then one or more decimal
   * digits, and 0 for anything else.
   */
  function AtoiFast(s: GoString): (i: int)
    requires 0 < |s| < 19
    ensures MinInt64 <= i <= MaxInt64
  {
    var digits := if s[0] == 43 || s[0] == 45 then s[1..] else s;
    if digits == [] || !AllDigits(digits) then 0
    else
      ShortDecimal(digits);
      if s[0] == 45 then -(Decimal(digits) as int) else Decimal(digits)
  }

  /** The digit loop on digits only: no error while the value fits 64 unsigned bits. */
  lemma {:induction false} ScanDecimal(s: GoString)
    requires AllDigits(s) && Decimal(s) <= MaxUint64
    ensures ScanDigits(s) == Parsed(Decimal(s))
  {
    if s != [] {
      ScanDecimal(s[..|s| - 1]);
    }
  }

  /** Once the digit loop has hit a range error, no later byte changes the outcome. */
  lemma {:induction false} ScanRangeSticks(p: GoString, t: GoString)
    requires ScanDigits(p) == RangeError
    ensures ScanDigits(p + t) == RangeError
    decreases |t|
  {
    if t != [] {
      var t' := t[..|t| - 1];
      assert (p + t)[..|p + t| - 1] == p + t';
      ScanRangeSticks(p, t');
      assert ScanDigits((p + t)[..|p + t| - 1]) == RangeError;
    } else {
      assert p + t == p;
    }
  }

  /** A string of decimal digits whose value fits a 64-bit `int` is parsed to that value. */
  lemma AtoiDecimal(s: GoString)
    requires s != [] && AllDigits(s) && Decimal(s) <= MaxInt64
    ensures Atoi(s) == Decimal(s)
  {
    assert s[0] != 43 && s[0] != 45;
    if |s| >= 19 {
      ScanDecimal(s);
    }
  }

  /** A minus sign before such digits negates the value. */
  lemma AtoiNegative(s: GoString)
    requires s != [] && AllDigits(s) && Decimal(s) <= MaxInt64
    ensures Atoi([45] + s) == -(Decimal(s) as int)
  {
    var t: GoString := [45] + s;
    assert t[1..] == s;
    if |t| >= 19 {
      ScanDecimal(s);
    }
  }

  /** `Atoi` is the left inverse of `Itoa` on the non-negative 64-bit values. */
  lemma AtoiItoa(i: nat)
    requires i <= MaxInt64
    ensures Atoi(Itoa(i)) == i
  {
    AtoiDecimal(Itoa(i));
  }

  /** `n` copies of the digit 9. */
  function Nines(n: nat): (s: GoString)
    ensures |s| == n && AllDigits(s)
  {
    seq(n, i => 57 as byte)
  }

  lemma {:induction false} NinesDecimal(n: nat)
    ensures Decimal(Nines(n)) == Pow10(n) - 1
  {
    if n > 0 {
      assert Nines(n)[..n - 1] == Nines(n - 1);
      NinesDecimal(n - 1);
    }
  }

  /**
   * The range error comes before a later syntax error: twenty nines and an `x`
   * parse to the largest `int`, while nineteen nines and an `x`, which overflow
   * only `int` and not 64 unsigned bits, parse to 0.
   */
  lemma AtoiOverflowFirst()
    ensures Atoi(Nines(20) + [120]) == MaxInt64
    ensures Atoi(Nines(19) + [120]) == 0
  {
    NinesDecimal(19);
    assert Pow10(9) == 1_000_000_000;
    Pow10Add(9, 9);
    assert Pow10(19) == 10 * Pow10(18);
    ScanDecimal(Nines(19));
    assert Nines(20)[..19] == Nines(19);
    assert ScanDigits(Nines(20)) == RangeError;
    ScanRangeSticks(Nines(20), [120]);
    var s := Nines(19) + [120];
    assert s[..|s| - 1] == Nines(19);
    assert ScanDigits(s) == SyntaxError;
  }

  /** The test's hash: `uint32(i)` of `i, _ := strconv.Atoi(string(data))`, wrapping modulo 2^32. */
  function TestHash(data: GoString): (h: uint32)
    ensures AllDigits(data) && 0 < |data| <= 9 ==> h as int == Decimal(data)
  {
    NineDigits(data);
    (Atoi(data) % 0x1_0000_0000) as uint32
  }

  /** A name of one to nine digits parses to its value, which is below 2^32. */
  lemma NineDigits(s: GoString)
    ensures AllDigits(s) && 0 < |s| <= 9 ==> Atoi(s) == Decimal(s) < 0x1_0000_0000
  {
    if AllDigits(s) && 0 < |s| <= 9 {
      DecimalBound(s);
      Pow10Mono(|s|, 9);
      assert Pow10(9) == 1_000_000_000;
      AtoiDecimal(s);
    }
  }

  /** The owner names of the example. */
  const Two: GoString := [50]
  const Four: GoString := [52]
  const Six: GoString := [54]
  const Eight: GoString := [56]

  /** The looked-up keys "11", "23" and "27" ("2" is also an owner name). */
  const Key11: GoString := [49, 49]
  const Key23: GoString := [50, 51]
  const Key27: GoString := [50, 55]

  /** A two-digit name hashes to its decimal value. */
  lemma TwoDigitHash(a: byte, b: byte)
    requires 48 <= a <= 57 && 48 <= b <= 57
    ensures TestHash([a, b]) as int == 10 * (a as int - 48) + (b as int - 48)
  {
    assert [a, b][..1] == [a];
    assert Decimal([a, b]) == 10 * Decimal([a]) + (b as int - 48);
  }

  /** The three virtual nodes of a one-digit owner `d` sit at `d`, `10 + d` and `20 + d`. */
  lemma DigitOwnerNodes(d: byte)
    requires 48 <= d <= 57
    ensures OwnerNodes(TestHash, [d], 3) == [d as int - 48, 10 + d as int - 48, 20 + d as int - 48]
  {
    DigitNodeHash(d, 0);
    DigitNodeHash(d, 1);
    DigitNodeHash(d, 2);
    var own := OwnerNodes(TestHash, [d], 3);
    assert OwnerNodes(TestHash, [d], 1) == [NodeHash(TestHash, [d], 0)];
    assert OwnerNodes(TestHash, [d], 2) == OwnerNodes(TestHash, [d], 1) + [NodeHash(TestHash, [d], 1)];
    assert own == OwnerNodes(TestHash, [d], 2) + [NodeHash(TestHash, [d], 2)];
  }

  /** Virtual node `i < 10` of a one-digit owner `d` is named by the two digits `i`, `d`. */
  lemma DigitNodeHash(d: byte, i: nat)
    requires 48 <= d <= 57 && i < 10
    ensures NodeHash(TestHash, [d], i) == 10 * i + d as int - 48
  {
    assert Itoa(i) == [DigitByte(i)];
    assert Itoa(i) + [d] == [(48 + i) as byte, d];
    TwoDigitHash((48 + i) as byte, d);
  }

  /** Nine ring values as three runs of three. */
  lemma Concat3(a: seq<int>, b: seq<int>, c: seq<int>)
    requires |a| == 3 && |b| == 3 && |c| == 3
    ensures a + b + c == [a[0], a[1], a[2], b[0], b[1], b[2], c[0], c[1], c[2]]
  {
    assert a == [a[0], a[1], a[2]];
    assert b == [b[0], b[1], b[2]];
    assert c == [c[0], c[1], c[2]];
  }

  /** Three one-digit owners `x`, `y`, `z` put their virtual nodes on the ring in this order. */
  lemma ThreeOwnerNodes(x: byte, y: byte, z: byte)
    requires 48 <= x <= 57 && 48 <= y <= 57 && 48 <= z <= 57
    ensures Nodes(TestHash, [[x], [y], [z]], 3)
         == [x as int - 48, x as int - 38, x as int - 28,
             y as int - 48, y as int - 38, y as int - 28,
             z as int - 48, z as int - 38, z as int - 28]
  {
    DigitOwnerNodes(x);
    DigitOwnerNodes(y);
    DigitOwnerNodes(z);
    var owners := [[x], [y], [z]];
    assert owners[..2] == [[x], [y]] && owners[..2][..1] == [[x]] && owners[..2][..1][..0] == [];
    var a, b, c := OwnerNodes(TestHash, [x], 3), OwnerNodes(TestHash, [y], 3), OwnerNodes(TestHash, [z], 3);
    assert Nodes(TestHash, [[x]], 3) == a;
    assert Nodes(TestHash, [[x], [y]], 3) == a + b;
    assert Nodes(TestHash, owners, 3) == a + b + c;
    Concat3(a, b, c);
  }

  /** The ring values of `Add("6", "4", "2")`, in the order `Add` appends them. */
  lemma FirstRing()
    ensures Nodes(TestHash, [Six, Four, Two], 3) == [6, 16, 26, 4, 14, 24, 2, 12, 22]
  {
    ThreeOwnerNodes(54, 52, 50);
  }

  /** The hashes of the looked-up keys. */
  lemma KeyHashes()
    ensures TestHash(Two) == 2 && TestHash(Key11) == 11 && TestHash(Key23) == 23 && TestHash(Key27) == 27
  {
    TwoDigitHash(49, 49);
    TwoDigitHash(50, 51);
    TwoDigitHash(50, 55);
  }

  /** Routing depends only on which values are on the ring. */
  lemma RouteBySet(keys: seq<int>, nodes: seq<int>, h: int, v: int)
    requires Sorted(keys) && |keys| > 0
    requires forall w :: w in keys <==> w in nodes
    requires IsSuccessor(nodes, h, v)
    ensures Successor(keys, h) == v
  {
    SuccessorIs(keys, h, v);
  }

  /** The same values make the same multiset members. */
  lemma SameMembers(keys: seq<int>, nodes: seq<int>)
    requires multiset(keys) == multiset(nodes)
    ensures forall w :: w in keys <==> w in nodes
  {
    forall w ensures w in keys <==> w in nodes {
      assert w in keys <==> w in multiset(keys);
      assert w in nodes <==> w in multiset(nodes);
    }
  }

  /** The least value at or above each queried hash on the first ring; 27 wraps to 2. */
  lemma FirstTargets()
    ensures IsSuccessor([6, 16, 26, 4, 14, 24, 2, 12, 22], 2, 2)
    ensures IsSuccessor([6, 16, 26, 4, 14, 24, 2, 12, 22], 11, 12)
    ensures IsSuccessor([6, 16, 26, 4, 14, 24, 2, 12, 22], 23, 24)
    ensures IsSuccessor([6, 16, 26, 4, 14, 24, 2, 12, 22], 27, 2)
  {
  }

  /** The same on the second ring; 27 now goes to 28. */
  lemma SecondTargets()
    ensures IsSuccessor([6, 16, 26, 4, 14, 24, 2, 12, 22] + [8, 18, 28], 2, 2)
    ensures IsSuccessor([6, 16, 26, 4, 14, 24, 2, 12, 22] + [8, 18, 28], 11, 12)
    ensures IsSuccessor([6, 16, 26, 4, 14, 24, 2, 12, 22] + [8, 18, 28], 23, 24)
    ensures IsSuccessor([6, 16, 26, 4, 14, 24, 2, 12, 22] + [8, 18, 28], 27, 28)
  {
  }

  /** Routing on the first ring `2 4 6 12 14 16 22 24 26`, however it was sorted. */
  lemma RouteFirst(keys: seq<int>)
    requires Sorted(keys) && multiset(keys) == multiset([6, 16, 26, 4, 14, 24, 2, 12, 22])
    ensures |keys| > 0
    ensures Successor(keys, 2) == 2 && Successor(keys, 11) == 12
    ensures Successor(keys, 23) == 24 && Successor(keys, 27) == 2
  {
    var nodes := [6, 16, 26, 4, 14, 24, 2, 12, 22];
    SameMembers(keys, nodes);
    FirstTargets();
    assert 2 in keys;
    RouteBySet(keys, nodes, 2, 2);
    RouteBySet(keys, nodes, 11, 12);
    RouteBySet(keys, nodes, 23, 24);
    RouteBySet(keys, nodes, 27, 2);
  }

  /** Routing on the second ring, with `8 18 28` added. */
  lemma RouteSecond(keys: seq<int>)
    requires Sorted(keys)
    requires multiset(keys) == multiset([6, 16, 26, 4, 14, 24, 2, 12, 22]) + multiset([8, 18, 28])
    ensures |keys| > 0
    ensures Successor(keys, 2) == 2 && Successor(keys, 11) == 12
    ensures Successor(keys, 23) == 24 && Successor(keys, 27) == 28
  {
    var nodes := [6, 16, 26, 4, 14, 24, 2, 12, 22] + [8, 18, 28];
    SameMembers(keys, nodes);
    SecondTargets();
    assert 2 in keys;
    RouteBySet(keys, nodes, 2, 2);
    RouteBySet(keys, nodes, 11, 12);
    RouteBySet(keys, nodes, 23, 24);
    RouteBySet(keys, nodes, 27, 28);
  }

  /** After `Add("6", "4", "2")` the values 2 and 12 belong to owner "2", and 24 to owner "4". */
  lemma OwnersFirst(owners: seq<GoString>, hm: map<int, GoString>)
    requires owners == [Six, Four, Two] && hm == Record(map[], TestHash, owners, 3)
    ensures 2 in hm && hm[2] == Two && 12 in hm && hm[12] == Two && 24 in hm && hm[24] == Four
  {
    DigitOwnerNodes(52);
    DigitOwnerNodes(50);
    RecordLastWins(map[], TestHash, owners, 3);
    assert WrittenLast(TestHash, owners, 3, 2, 2);
    assert WrittenLast(TestHash, owners, 3, 2, 12);
    assert WrittenLast(TestHash, owners, 3, 1, 24);
  }

  /** The ring values of `Add("8")`. */
  lemma EightNodes()
    ensures Nodes(TestHash, [Eight], 3) == [8, 18, 28]
  {
    DigitOwnerNodes(56);
    assert Nodes(TestHash, [Eight], 3) == OwnerNodes(TestHash, Eight, 3);
  }

  /** `Add("8")` takes over 28 and leaves 2, 12 and 24 with their owners. */
  lemma OwnersSecond(hm: map<int, GoString>, owners: seq<GoString>, hm2: map<int, GoString>)
    requires owners == [Eight] && hm2 == Record(hm, TestHash, owners, 3)
    requires 2 in hm && 12 in hm && 24 in hm
    ensures 28 in hm2 && hm2[28] == Eight
    ensures 2 in hm2 && hm2[2] == hm[2] && 12 in hm2 && hm2[12] == hm[12] && 24 in hm2 && hm2[24] == hm[24]
  {
    EightNodes();
    var nodes := Nodes(TestHash, owners, 3);
    assert nodes == [8, 18, 28];
    assert 2 !in nodes && 12 !in nodes && 24 !in nodes;
    RecordKeys(hm, TestHash, owners, 3);
    assert OwnerNodes(TestHash, Eight, 3) == nodes;
    RecordLastWins(hm, TestHash, owners, 3);
    assert WrittenLast(TestHash, owners, 3, 0, 28);
  }

  /** The four lookups of the test, in the order "2", "11", "23", "27". */
  function Lookups(m: Map): (owners: seq<GoString>)
    reads m
    requires |m.keys| > 0
  {
    [m.Get(Two), m.Get(Key11), m.Get(Key23), m.Get(Key27)]
  }

  /** The state of the test's map after `Add("6", "4", "2")`, as far as the second half needs it. */
  ghost predicate FirstRingState(m: Map)
    reads m
  {
    && m.Valid() && m.hash == TestHash && m.replicas == 3
    && multiset(m.keys) == multiset([6, 16, 26, 4, 14, 24, 2, 12, 22])
    && 2 in m.hashMap && m.hashMap[2] == Two && 12 in m.hashMap && m.hashMap[12] == Two
    && 24 in m.hashMap && m.hashMap[24] == Four
  }

  /** The test keys' hash values, whatever hash produces them. */
  ghost predicate KeysHashTo(m: Map)
    reads m
  {
    m.hash(Two) == 2 && m.hash(Key11) == 11 && m.hash(Key23) == 23 && m.hash(Key27) == 27
  }

  /** Routing on the first ring, from its values and owners alone. */
  lemma FirstRouting(m: Map)
    requires KeysHashTo(m) && Sorted(m.keys)
    requires multiset(m.keys) == multiset([6, 16, 26, 4, 14, 24, 2, 12, 22])
    requires 2 in m.hashMap && m.hashMap[2] == Two && 12 in m.hashMap && m.hashMap[12] == Two
    requires 24 in m.hashMap && m.hashMap[24] == Four
    ensures |m.keys| > 0 && Lookups(m) == [Two, Two, Four, Two]
  {
    RouteFirst(m.keys);
  }

  /** Routing on the second ring, from its values and owners alone. */
  lemma SecondRouting(m: Map)
    requires KeysHashTo(m) && Sorted(m.keys)
    requires multiset(m.keys) == multiset([6, 16, 26, 4, 14, 24, 2, 12, 22]) + multiset([8, 18, 28])
    requires 2 in m.hashMap && m.hashMap[2] == Two && 12 in m.hashMap && m.hashMap[12] == Two
    requires 24 in m.hashMap && m.hashMap[24] == Four && 28 in m.hashMap && m.hashMap[28] == Eight
    ensures |m.keys| > 0 && Lookups(m) == [Two, Two, Four, Eight]
  {
    RouteSecond(m.keys);
  }

  /** Routing after `Add("6", "4", "2")`. */
  lemma FirstPhase(m: Map, first: seq<GoString>)
    requires first == [Six, Four, Two] && m.hash == TestHash && m.replicas == 3 && m.Valid()
    requires multiset(m.keys) == multiset([]) + multiset(Nodes(TestHash, first, 3))
    requires m.hashMap == Record(map[], TestHash, first, 3)
    ensures |m.keys| > 0 && FirstRingState(m)
    ensures Lookups(m) == [Two, Two, Four, Two]
  {
    FirstRing();
    KeyHashes();
    OwnersFirst(first, m.hashMap);
    FirstRouting(m);
  }

  /** Routing after `Add("8")` on top of the first ring. */
  lemma SecondPhase(m: Map, keys0: seq<int>, hm0: map<int, GoString>, second: seq<GoString>)
    requires second == [Eight] && m.hash == TestHash && Sorted(m.keys)
    requires multiset(keys0) == multiset([6, 16, 26, 4, 14, 24, 2, 12, 22])
    requires multiset(m.keys) == multiset(keys0) + multiset(Nodes(TestHash, second, 3))
    requires 2 in hm0 && hm0[2] == Two && 12 in hm0 && hm0[12] == Two && 24 in hm0 && hm0[24] == Four
    requires m.hashMap == Record(hm0, TestHash, second, 3)
    ensures |m.keys| > 0
    ensures Lookups(m) == [Two, Two, Four, Eight]
  {
    EightNodes();
    KeyHashes();
    OwnersSecond(hm0, second, m.hashMap);
    SecondRouting(m);
  }

  /**
   * `Test_Hashing`: with three virtual nodes per owner and the decimal hash, after
   * `Add("6", "4", "2")` the keys "2", "11", "23", "27" route to "2", "2", "4", "2";
   * after `Add("8")` the key "27" routes to "8" and the others are unchanged.
   */
  method TestHashing() returns (before: seq<GoString>, after: seq<GoString>)
    ensures before == [Two, Two, Four, Two]
    ensures after == [Two, Two, Four, Eight]
  {
    var m := new Map(3, Some(TestHash), (data: GoString) => 0 as uint32);
    var first := [Six, Four, Two];
    m.Add(first);
    FirstPhase(m, first);
    before := Lookups(m);
    after := AddEight(m);
  }

  /** The second half of the test: `Add("8")` on the first ring, then the same lookups. */
  method AddEight(m: Map) returns (after: seq<GoString>)
    requires FirstRingState(m)
    modifies m
    ensures after == [Two, Two, Four, Eight]
  {
    ghost var keys0, hm0 := m.keys, m.hashMap;
    var second := [Eight];
    m.Add(second);
    SecondPhase(m, keys0, hm0, second);
    after := Lookups(m);
  }
}
