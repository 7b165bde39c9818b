/**
 * `java.util.LinkedHashMap` constructed with `accessOrder = true`, the recency
 * structure of both the facade and the decomposed LRU tracker. Its iteration
 * order is kept as a sequence of distinct keys, least recently used first; a
 * `put` of a key (new or present) moves that key to the end.
 */
module LinkedMaps {

  /** No key occurs twice in `s`: the head is not in the tail, and the tail is distinct. */
  ghost predicate Distinct<K>(s: seq<K>)
    decreases |s|
  {
    s == [] || (s[0] !in s[1..] && Distinct(s[1..]))
  }

  /** Distinct positions of a distinct sequence hold distinct keys. */
  lemma {:induction false} DistinctAt<K>(s: seq<K>, i: nat, j: nat)
    requires Distinct(s) && i < j < |s|
    ensures s[i] != s[j]
  {
    if i == 0 {
      assert s[j] == s[1..][j - 1];
    } else {
      assert s[i] == s[1..][i - 1] && s[j] == s[1..][j - 1];
      DistinctAt(s[1..], i - 1, j - 1);
    }
  }

  /** Appending a key that does not occur keeps a sequence distinct. */
  lemma {:induction false} DistinctSnoc<K>(s: seq<K>, x: K)
    requires Distinct(s) && x !in s
    ensures Distinct(s + [x])
  {
    if s == [] {
      assert [] + [x] == [x] && [x][1..] == [];
    } else {
      assert (s + [x])[0] == s[0] && (s + [x])[1..] == s[1..] + [x];
      DistinctSnoc(s[1..], x);
    }
  }

  /** `s` with `k` taken out and every other key left in its relative order. */
  function Without<K(==)>(s: seq<K>, k: K): (r: seq<K>)
    ensures forall x :: x in r ==> x in s && x != k
    ensures forall x :: x in s && x != k ==> x in r
    ensures |r| <= |s|
    ensures k !in s ==> r == s
    ensures Distinct(s) ==> Distinct(r) && |r| == if k in s then |s| - 1 else |s|
  {
    if s == [] then []
    else
      DistinctTail(s);
      var rest := Without(s[1..], k);
      if s[0] == k then rest
      else
        DistinctCons(s[0], rest);
        [s[0]] + rest
  }

  /** The tail of a sequence of distinct keys is distinct and does not hold its head. */
  lemma DistinctTail<K>(s: seq<K>)
    requires s != []
    ensures Distinct(s) ==> Distinct(s[1..]) && s[0] !in s[1..]
  {
  }

  /** Prefixing a key that does not occur keeps a sequence distinct. */
  lemma DistinctCons<K>(x: K, t: seq<K>)
    ensures x !in t && Distinct(t) ==> Distinct([x] + t)
  {
    assert ([x] + t)[1..] == t;
  }

  /** Taking the head out of a sequence of distinct keys leaves its tail. */
  lemma WithoutHead<K>(s: seq<K>)
    requires Distinct(s) && s != []
    ensures Without(s, s[0]) == s[1..]
  {
    assert s[0] !in s[1..];
    assert Without(s[1..], s[0]) == s[1..];
  }

  /** Taking out the key at position `i` of a sequence of distinct keys closes the gap. */
  lemma {:induction false} WithoutAt<K>(s: seq<K>, i: nat)
    requires Distinct(s) && i < |s|
    ensures Without(s, s[i]) == s[..i] + s[i + 1..]
  {
    if i == 0 {
      WithoutHead(s);
      assert s[..0] + s[1..] == s[1..];
    } else {
      var t := s[1..];
      assert t[i - 1] == s[i] && s[i] in t;
      calc {
        Without(s, s[i]);
        [s[0]] + Without(t, s[i]);
        { WithoutAt(t, i - 1); }
        [s[0]] + (t[..i - 1] + t[i..]);
        { assert t[..i - 1] == s[1..i] && t[i..] == s[i + 1..]; }
        s[..i] + s[i + 1..];
      }
    }
  }

  /** `Without` distributes over concatenation. */
  lemma {:induction false} WithoutConcat<K>(a: seq<K>, b: seq<K>, k: K)
    ensures Without(a + b, k) == Without(a, k) + Without(b, k)
  {
    if a == [] {
      assert a + b == b;
    } else {
      assert (a + b)[0] == a[0] && (a + b)[1..] == a[1..] + b;
      WithoutConcat(a[1..], b, k);
    }
  }

  /** A sequence of distinct keys has as many elements as the set of keys it lists. */
  lemma {:induction false} DistinctCount<K>(s: seq<K>, ks: set<K>)
    requires Distinct(s)
    requires forall x :: x in ks ==> x in s
    requires forall x :: x in s ==> x in ks
    ensures |ks| == |s|
  {
    if s != [] {
      DistinctTail(s);
      forall x | x in ks - {s[0]} || x in s[1..] ensures x in ks - {s[0]} <==> x in s[1..] {
        if x in s[1..] {
          var j :| 0 <= j < |s[1..]| && s[1..][j] == x;
          assert s[j + 1] == x;
        }
        if x in s && x != s[0] {
          var j :| 0 <= j < |s| && s[j] == x;
          assert s[1..][j - 1] == x;
        }
      }
      DistinctCount(s[1..], ks - {s[0]});
    }
  }

  datatype LinkedMap<K(==), V> = LinkedMap(order: seq<K>, values: map<K, V>)
  {
    /** The iteration order lists each mapped key exactly once. */
    ghost predicate Valid() {
      && Distinct(order)
      && (forall k :: k in values ==> k in order)
      && (forall k :: k in order ==> k in values)
    }

    /** `size()`: the length of the iteration order. */
    function Size(): nat {
      |order|
    }

    /** `containsKey`, which does not count as an access: the key is one the iteration order lists. */
    predicate ContainsKey(k: K)
      ensures Valid() ==> (ContainsKey(k) <==> k in order)
    {
      k in values
    }

    /** The head of the iteration order: `keySet().iterator().next()`, the least recently used key. */
    function Eldest(): (r: K)
      requires order != []
      ensures r in order
      ensures Valid() ==> ContainsKey(r)
    {
      order[0]
    }

    /** `put(k, v)` in access order: `k` maps to `v` and becomes the most recently used key. */
    function Put(k: K, v: V): (r: LinkedMap<K, V>)
      requires Valid()
      ensures r.Valid()
      ensures r.values == values[k := v]
      ensures r.order != [] && r.order[|r.order| - 1] == k
      ensures Without(r.order, k) == Without(order, k)
      ensures r.Size() == if ContainsKey(k) then Size() else Size() + 1
    {
      var rest := Without(order, k);
      WithoutConcat(rest, [k], k);
      assert Without([k], k) == [];
      DistinctSnoc(rest, k);
      LinkedMap(rest + [k], values[k := v])
    }

    /** `remove(k)`: `k` is unmapped and the other keys keep their relative order. */
    function Remove(k: K): (r: LinkedMap<K, V>)
      requires Valid()
      ensures r.Valid()
      ensures r.values == values - {k}
      ensures r.order == Without(order, k)
      ensures r.Size() == if ContainsKey(k) then Size() - 1 else Size()
    {
      LinkedMap(Without(order, k), values - {k})
    }

    /** Removing the eldest key drops the head of the iteration order. */
    function RemoveEldest(): (r: LinkedMap<K, V>)
      requires Valid() && order != []
      ensures r.Valid()
      ensures r.order == order[1..]
      ensures r.values == values - {order[0]}
    {
      WithoutAt(order, 0);
      Remove(order[0])
    }

    /**
     * `put(k, v)` on a map whose `removeEldestEntry` hook answers `size() > cap`:
     * the hook is consulted after a new key has been inserted, and when it answers
     * true the head of the iteration order is removed.
     */
    function PutBounded(k: K, v: V, cap: int): (r: LinkedMap<K, V>)
      requires Valid()
      ensures r.Valid()
      ensures Size() <= cap ==> r.Size() <= cap
      ensures cap >= 1 ==> r.ContainsKey(k) && r.values[k] == v && r.order[|r.order| - 1] == k
      ensures forall x :: x in r.values ==> x == k || x in values
      ensures forall x :: x in r.values && x != k ==> r.values[x] == values[x]
      ensures forall x :: x in values && x != k && x !in r.values ==>
                !ContainsKey(k) && Size() >= cap && x == Eldest()
      ensures !ContainsKey(k) && Size() >= cap && order != [] ==> Eldest() !in r.values
      ensures Size() < cap || ContainsKey(k) ==> r == Put(k, v)
    {
      var m := Put(k, v);
      if !ContainsKey(k) && m.Size() > cap then m.RemoveEldest() else m
    }

    /** `clear()`. */
    function Clear(): (r: LinkedMap<K, V>)
      ensures r.Valid() && r.Size() == 0 && r.values == map[]
    {
      LinkedMap([], map[])
    }
  }

  /** A new, empty map. */
  function EmptyMap<K(==), V>(): (r: LinkedMap<K, V>)
    ensures r.Valid() && r.Size() == 0 && r.values == map[]
  {
    LinkedMap([], map[])
  }

  /** The position of the last use of `k` in the access history `h`, or -1 if it was never used. */
  ghost function LastUse<K>(h: seq<K>, k: K): (r: int)
    ensures -1 <= r < |h|
    ensures r >= 0 ==> h[r] == k
    ensures r == -1 ==> k !in h
    ensures forall i :: r < i < |h| ==> h[i] != k
  {
    if h == [] then -1
    else if h[|h| - 1] == k then |h| - 1
    else
      var r := LastUse(h[..|h| - 1], k);
      assert forall i :: 0 <= i < |h| - 1 ==> h[..|h| - 1][i] == h[i];
      r
  }

  /**
   * The iteration order of `m` is its keys sorted by their last use in `h`, the
   * least recently used first: the independent meaning of "access order".
   */
  ghost predicate RecencyOrdered<K, V>(m: LinkedMap<K, V>, h: seq<K>) {
    && (forall i {:trigger LastUse(h, m.order[i])} :: 0 <= i < |m.order| ==> LastUse(h, m.order[i]) >= 0)
    && forall i, j {:trigger LastUse(h, m.order[i]), LastUse(h, m.order[j])} ::
         0 <= i < j < |m.order| ==> LastUse(h, m.order[i]) < LastUse(h, m.order[j])
  }

  /** Any two keys in `Without(s, k)` occur in the same order in `s`. */
  lemma {:induction false} WithoutKeepsOrder<K>(s: seq<K>, k: K, i: nat, j: nat)
    requires i < j < |Without(s, k)|
    ensures exists a, b :: 0 <= a < b < |s| && s[a] == Without(s, k)[i] && s[b] == Without(s, k)[j]
  {
    var r := Without(s, k);
    if s[0] == k {
      WithoutKeepsOrder(s[1..], k, i, j);
      var a, b :| 0 <= a < b < |s[1..]| && s[1..][a] == r[i] && s[1..][b] == r[j];
      assert s[a + 1] == r[i] && s[b + 1] == r[j];
    } else if i == 0 {
      var rest := Without(s[1..], k);
      assert r[j] == rest[j - 1] && rest[j - 1] in rest;
      var b :| 0 <= b < |s[1..]| && s[1..][b] == rest[j - 1];
      assert s[0] == r[0] && s[b + 1] == r[j];
    } else {
      var rest := Without(s[1..], k);
      assert r[i] == rest[i - 1] && r[j] == rest[j - 1];
      WithoutKeepsOrder(s[1..], k, i - 1, j - 1);
      var a, b :| 0 <= a < b < |s[1..]| && s[1..][a] == rest[i - 1] && s[1..][b] == rest[j - 1];
      assert s[a + 1] == r[i] && s[b + 1] == r[j];
    }
  }

  /** Distinct keys at increasing positions of a recency-ordered map were last used in that order. */
  lemma RecencyAt<K, V>(m: LinkedMap<K, V>, h: seq<K>, x: K, y: K)
    requires RecencyOrdered(m, h) && m.Valid()
    requires exists a, b :: 0 <= a < b < |m.order| && m.order[a] == x && m.order[b] == y
    ensures LastUse(h, x) < LastUse(h, y)
  {
  }

  /** A new, empty map is vacuously ordered by recency. */
  lemma EmptyIsRecencyOrdered<K, V>(h: seq<K>)
    ensures RecencyOrdered(EmptyMap<K, V>(), h)
  {
  }

  /** Using `k` (a `put`) keeps the order sorted by last use, with `k` the most recent. */
  lemma PutKeepsRecencyOrder<K, V>(m: LinkedMap<K, V>, h: seq<K>, k: K, v: V)
    requires m.Valid() && RecencyOrdered(m, h)
    ensures RecencyOrdered(m.Put(k, v), h + [k])
  {
    var r := m.Put(k, v).order;
    var rest := Without(m.order, k);
    assert r == rest + [k];
    var h' := h + [k];
    assert h'[..|h'| - 1] == h;
    forall x | x != k ensures LastUse(h', x) == LastUse(h, x) {
    }
    assert LastUse(h', k) == |h|;
    forall i, j | 0 <= i < j < |r| ensures LastUse(h', r[i]) < LastUse(h', r[j]) {
      assert r[i] == rest[i] && r[i] != k && r[i] in m.order;
      if j < |rest| {
        assert r[j] == rest[j] && r[j] != k;
        WithoutKeepsOrder(m.order, k, i, j);
        RecencyAt(m, h, r[i], r[j]);
      }
    }
  }

  /** Removing a key keeps the order sorted by last use. */
  lemma RemoveKeepsRecencyOrder<K, V>(m: LinkedMap<K, V>, h: seq<K>, k: K)
    requires m.Valid() && RecencyOrdered(m, h)
    ensures RecencyOrdered(m.Remove(k), h)
  {
    var r := m.Remove(k).order;
    forall i | 0 <= i < |r| ensures LastUse(h, r[i]) >= 0 {
      assert r[i] in r && r[i] in m.order;
      var j :| 0 <= j < |m.order| && m.order[j] == r[i];
    }
    forall i, j | 0 <= i < j < |r| ensures LastUse(h, r[i]) < LastUse(h, r[j]) {
      WithoutKeepsOrder(m.order, k, i, j);
      RecencyAt(m, h, r[i], r[j]);
    }
  }

  /** A bounded `put` of `k` keeps the order sorted by last use, with `k` the most recent. */
  lemma PutBoundedKeepsRecencyOrder<K, V>(m: LinkedMap<K, V>, h: seq<K>, k: K, v: V, cap: int)
    requires m.Valid() && RecencyOrdered(m, h)
    ensures RecencyOrdered(m.PutBounded(k, v, cap), h + [k])
  {
    PutKeepsRecencyOrder(m, h, k, v);
    var p := m.Put(k, v);
    if !m.ContainsKey(k) && p.Size() > cap {
      RemoveKeepsRecencyOrder(p, h + [k], p.order[0]);
    }
  }

  /** The eldest key of a recency-ordered map is the least recently used of its keys. */
  lemma EldestIsLeastRecentlyUsed<K, V>(m: LinkedMap<K, V>, h: seq<K>)
    requires m.Valid() && RecencyOrdered(m, h) && m.order != []
    ensures forall x :: x in m.order && x != m.Eldest() ==> LastUse(h, m.Eldest()) < LastUse(h, x)
  {
    forall x | x in m.order && x != m.Eldest() ensures LastUse(h, m.Eldest()) < LastUse(h, x) {
      var j :| 0 <= j < |m.order| && m.order[j] == x;
      assert j > 0;
    }
  }

  /** The size of a map is the number of its mappings. */
  lemma SizeIsMappingCount<K, V>(m: LinkedMap<K, V>)
    requires m.Valid()
    ensures |m.values| == m.Size()
  {
    DistinctCount(m.order, m.values.Keys);
  }

  /** `remove(k)` of a present key closes the gap it leaves in the iteration order. */
  lemma RemoveClosesGap<K, V>(m: LinkedMap<K, V>, i: nat)
    requires m.Valid() && i < m.Size()
    ensures m.Remove(m.order[i]).order == m.order[..i] + m.order[i + 1..]
  {
    WithoutAt(m.order, i);
  }
}
