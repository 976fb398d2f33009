/** The size-bounded LRU cache. */
module Cache {
  import opened ByteKeys

  datatype Entry<K, V> = Entry(key: K, value: V, size: nat)

  // Entries are kept most recently used first.

  function Total<K, V>(es: seq<Entry<K, V>>): nat {
    if es == [] then 0 else Total(es[..|es| - 1]) + es[|es| - 1].size
  }

  predicate HasKey<K(==), V>(es: seq<Entry<K, V>>, k: K) {
    exists i :: 0 <= i < |es| && es[i].key == k
  }

  predicate DistinctKeys<K(==), V>(es: seq<Entry<K, V>>) {
    forall i, j :: 0 <= i < j < |es| ==> es[i].key != es[j].key
  }

  function IndexOf<K(==), V>(es: seq<Entry<K, V>>, k: K): (i: nat)
    ensures i <= |es|
    ensures i < |es| ==> es[i].key == k
    ensures forall j :: 0 <= j < i ==> es[j].key != k
  {
    if es == [] then 0 else if es[0].key == k then 0 else 1 + IndexOf(es[1..], k)
  }

  function Without<K(==), V>(es: seq<Entry<K, V>>, k: K): seq<Entry<K, V>> {
    var i := IndexOf(es, k);
    if i < |es| then es[..i] + es[i + 1..] else es
  }

  /** A hit moves the entry to the front. */
  function Touched<K(==), V>(es: seq<Entry<K, V>>, k: K): seq<Entry<K, V>> {
    var i := IndexOf(es, k);
    if i < |es| then [es[i]] + es[..i] + es[i + 1..] else es
  }

  /** The longest most-recently-used run that fits. */
  function Fitting<K, V>(es: seq<Entry<K, V>>, capacity: nat): seq<Entry<K, V>> {
    if Total(es) <= capacity then es else Fitting(es[..|es| - 1], capacity)
  }

  /** The entries after a `put`; a value larger than the whole cache changes nothing. */
  function AfterPut<K(==), V>(es: seq<Entry<K, V>>, e: Entry<K, V>, capacity: nat): seq<Entry<K, V>> {
    if e.size > capacity then es else Fitting([e] + Without(es, e.key), capacity)
  }

  lemma {:induction false} TotalConcat<K, V>(a: seq<Entry<K, V>>, b: seq<Entry<K, V>>)
    ensures Total(a + b) == Total(a) + Total(b)
  {
    if b == [] {
      assert a + b == a;
    } else {
      var n := |b| - 1;
      assert (a + b)[..|a| + n] == a + b[..n];
      TotalConcat(a, b[..n]);
    }
  }

  lemma TotalOne<K, V>(e: Entry<K, V>)
    ensures Total([e]) == e.size
  {
    assert [e][..0] == [];
  }

  lemma TotalSplit<K, V>(es: seq<Entry<K, V>>, i: nat)
    requires i < |es|
    ensures Total(es) == Total(es[..i]) + es[i].size + Total(es[i + 1..])
  {
    assert es == es[..i] + ([es[i]] + es[i + 1..]);
    TotalConcat(es[..i], [es[i]] + es[i + 1..]);
    TotalConcat([es[i]], es[i + 1..]);
    TotalOne(es[i]);
  }

  lemma TotalWithout<K, V>(es: seq<Entry<K, V>>, k: K)
    ensures Total(es) == Total(Without(es, k)) + (if IndexOf(es, k) < |es| then es[IndexOf(es, k)].size else 0)
    ensures Total(Touched(es, k)) == Total(es)
  {
    var i := IndexOf(es, k);
    if i < |es| {
      TotalSplit(es, i);
      TotalConcat(es[..i], es[i + 1..]);
      TotalConcat([es[i]] + es[..i], es[i + 1..]);
      TotalConcat([es[i]], es[..i]);
      TotalOne(es[i]);
    }
  }

  lemma Dropped<K, V>(es: seq<Entry<K, V>>, i: nat)
    requires DistinctKeys(es) && i < |es|
    ensures DistinctKeys(es[..i] + es[i + 1..])
    ensures forall e :: e in es[..i] + es[i + 1..] <==> e in es && e.key != es[i].key
  {
    var r := es[..i] + es[i + 1..];
    assert forall p :: 0 <= p < |r| ==> r[p] == es[if p < i then p else p + 1];
    forall e | e in es && e.key != es[i].key
      ensures e in r
    {
      var p :| 0 <= p < |es| && es[p] == e;
      assert r[if p < i then p else p - 1] == e;
    }
  }

  lemma InFront<K, V>(x: Entry<K, V>, r: seq<Entry<K, V>>)
    requires DistinctKeys(r) && forall e :: e in r ==> e.key != x.key
    ensures DistinctKeys([x] + r)
  {
    var s := [x] + r;
    forall p, q | 0 <= p < q < |s|
      ensures s[p].key != s[q].key
    {
      assert s[q] == r[q - 1] && r[q - 1] in r;
      assert p > 0 ==> s[p] == r[p - 1];
    }
  }

  lemma WithoutKeys<K, V>(es: seq<Entry<K, V>>, k: K)
    requires DistinctKeys(es)
    ensures DistinctKeys(Without(es, k))
    ensures forall e :: e in Without(es, k) <==> e in es && e.key != k
  {
    var i := IndexOf(es, k);
    if i < |es| {
      Dropped(es, i);
    }
  }

  lemma TouchedKeys<K, V>(es: seq<Entry<K, V>>, k: K)
    requires DistinctKeys(es)
    ensures DistinctKeys(Touched(es, k))
    ensures forall e :: e in Touched(es, k) <==> e in es
  {
    hide DistinctKeys;
    hide Touched;
    hide IndexOf;
    var i := IndexOf(es, k);
    TouchedIs(es, k);
    if i < |es| {
      var r := es[..i] + es[i + 1..];
      Dropped(es, i);
      InFront(es[i], r);
      FrontMembers(es, i, r);
    }
  }

  lemma TouchedIs<K, V>(es: seq<Entry<K, V>>, k: K)
    ensures var i := IndexOf(es, k);
            Touched(es, k) == if i < |es| then [es[i]] + (es[..i] + es[i + 1..]) else es
  {
    hide IndexOf;
    var i := IndexOf(es, k);
    if i < |es| {
      Associative([es[i]], es[..i], es[i + 1..]);
    }
  }

  lemma Associative<T>(a: seq<T>, b: seq<T>, c: seq<T>)
    ensures a + b + c == a + (b + c)
  {
  }

  lemma FrontMembers<K, V>(es: seq<Entry<K, V>>, i: nat, r: seq<Entry<K, V>>)
    requires DistinctKeys(es) && i < |es|
    requires forall e :: e in r <==> e in es && e.key != es[i].key
    ensures forall e :: e in [es[i]] + r <==> e in es
  {
    forall e | e in es
      ensures e in [es[i]] + r
    {
      var j :| 0 <= j < |es| && es[j] == e;
      assert j != i ==> e.key != es[i].key;
      assert j != i ==> e in r;
    }
  }

  /** `Fitting` is a prefix within the capacity, and no longer prefix is. */
  lemma {:induction false} FittingLongest<K, V>(es: seq<Entry<K, V>>, capacity: nat)
    ensures Fitting(es, capacity) <= es && Total(Fitting(es, capacity)) <= capacity
    ensures forall n :: |Fitting(es, capacity)| < n <= |es| ==> Total(es[..n]) > capacity
  {
    if Total(es) > capacity {
      var front := es[..|es| - 1];
      FittingLongest(front, capacity);
      forall n | |Fitting(es, capacity)| < n <= |es|
        ensures Total(es[..n]) > capacity
      {
        if n < |es| {
          assert es[..n] == front[..n];
        } else {
          assert es[..n] == es;
        }
      }
    }
  }

  /** An accepted put keeps the new entry in front and every surviving key once. */
  lemma PutKeeps<K, V>(es: seq<Entry<K, V>>, e: Entry<K, V>, capacity: nat)
    requires DistinctKeys(es) && e.size <= capacity
    ensures AfterPut(es, e, capacity) != [] && AfterPut(es, e, capacity)[0] == e
    ensures DistinctKeys(AfterPut(es, e, capacity)) && Total(AfterPut(es, e, capacity)) <= capacity
    ensures forall x :: x in AfterPut(es, e, capacity) ==> x == e || (x in es && x.key != e.key)
  {
    var all := [e] + Without(es, e.key);
    WithoutKeys(es, e.key);
    FittingLongest(all, capacity);
    TotalOne(e);
    assert all[..1] == [e];
    var kept := Fitting(all, capacity);
    assert kept == all[..|kept|];
    InFront(e, Without(es, e.key));
    assert forall x :: x in all ==> x == e || x in Without(es, e.key);
  }

  // ---------------------------------------------------------------- which entries stay, and in which order

  /** The entries of other keys, in their order. */
  ghost function Others<K, V>(es: seq<Entry<K, V>>, k: K): (r: seq<Entry<K, V>>)
    ensures |r| <= |es|
  {
    if es == [] then []
    else
      var n := |es| - 1;
      Others(es[..n], k) + (if es[n].key == k then [] else [es[n]])
  }

  lemma {:induction false} OthersConcat<K, V>(a: seq<Entry<K, V>>, b: seq<Entry<K, V>>, k: K)
    ensures Others(a + b, k) == Others(a, k) + Others(b, k)
  {
    if b == [] {
      assert a + b == a;
    } else {
      var n := |b| - 1;
      assert (a + b)[..|a| + n] == a + b[..n];
      OthersConcat(a, b[..n], k);
    }
  }

  lemma {:induction false} OthersAll<K, V>(es: seq<Entry<K, V>>, k: K)
    requires forall i :: 0 <= i < |es| ==> es[i].key != k
    ensures Others(es, k) == es
  {
    if es != [] {
      OthersAll(es[..|es| - 1], k);
    }
  }

  lemma OthersAround<K, V>(a: seq<Entry<K, V>>, x: Entry<K, V>, b: seq<Entry<K, V>>)
    requires forall i :: 0 <= i < |a| ==> a[i].key != x.key
    requires forall i :: 0 <= i < |b| ==> b[i].key != x.key
    ensures Others(a + ([x] + b), x.key) == a + b
  {
    OthersNone(x);
    OthersAll(a, x.key);
    OthersAll(b, x.key);
    OthersConcat(a, [x] + b, x.key);
    OthersConcat([x], b, x.key);
    hide Others;
    assert [] + b == b;
  }

  lemma OthersNone<K, V>(x: Entry<K, V>)
    ensures Others([x], x.key) == []
  {
    assert [x][..0] == [];
  }

  lemma WithoutIsOthers<K, V>(es: seq<Entry<K, V>>, k: K)
    requires DistinctKeys(es)
    ensures Without(es, k) == Others(es, k)
  {
    var i := IndexOf(es, k);
    hide IndexOf;
    hide Others;
    if i < |es| {
      var a, b := es[..i], es[i + 1..];
      forall j | 0 <= j < |b|
        ensures b[j].key != k
      {
        assert es[i].key != es[i + 1 + j].key;
      }
      OthersAround(a, es[i], b);
      assert es == a + ([es[i]] + b);
    } else {
      OthersAll(es, k);
    }
  }

  /**
   * What a `put` leaves, for every cache and value: too large a value changes nothing; otherwise the new entry is
   * followed by the first `kept` of the old entries of other keys, in their order, which fit together with it, and
   * with one more of them they would not.
   */
  lemma PutExact<K, V>(es: seq<Entry<K, V>>, e: Entry<K, V>, capacity: nat) returns (kept: nat)
    requires DistinctKeys(es)
    ensures e.size > capacity ==> AfterPut(es, e, capacity) == es
    ensures kept <= |Others(es, e.key)|
    ensures e.size <= capacity ==> AfterPut(es, e, capacity) == [e] + Others(es, e.key)[..kept]
    ensures e.size <= capacity ==> e.size + Total(Others(es, e.key)[..kept]) <= capacity
    ensures e.size <= capacity ==> forall n :: kept < n <= |Others(es, e.key)| ==> e.size + Total(Others(es, e.key)[..n]) > capacity
  {
    hide Others;
    kept := 0;
    WithoutIsOthers(es, e.key);
    hide Without;
    if e.size <= capacity {
      var rest := Others(es, e.key);
      FittingLongest([e] + rest, capacity);
      kept := |Fitting([e] + rest, capacity)|;
      hide Fitting;
      FrontTotal(e, rest, 0);
      assert kept > 0;
      kept := kept - 1;
      FrontTotal(e, rest, kept);
      forall n | kept < n <= |rest|
        ensures e.size + Total(rest[..n]) > capacity
      {
        FrontTotal(e, rest, n);
      }
    }
  }

  lemma FrontTotal<K, V>(e: Entry<K, V>, rest: seq<Entry<K, V>>, n: nat)
    requires n <= |rest|
    ensures ([e] + rest)[..n + 1] == [e] + rest[..n]
    ensures Total(([e] + rest)[..n + 1]) == e.size + Total(rest[..n])
    ensures Total(rest[..0]) == 0
  {
    assert ([e] + rest)[..n + 1] == [e] + rest[..n];
    TotalConcat([e], rest[..n]);
    TotalOne(e);
  }

  /** A hit moves its entry to the front and keeps the order of the others; a miss changes nothing. */
  lemma TouchExact<K, V>(es: seq<Entry<K, V>>, k: K)
    requires DistinctKeys(es)
    ensures !HasKey(es, k) ==> Touched(es, k) == es
    ensures HasKey(es, k) ==> exists e :: e in es && e.key == k && Touched(es, k) == [e] + Others(es, k)
  {
    var i := IndexOf(es, k);
    TouchedIs(es, k);
    WithoutIsOthers(es, k);
    if i < |es| {
      assert es[i] in es && Touched(es, k) == [es[i]] + Others(es, k);
    }
  }

  class SizedLruCache<K(==), V> {
    var entries: seq<Entry<K, V>>
    var usage: nat
    const capacity: nat

    ghost predicate Valid()
      reads this
    {
      usage == Total(entries) <= capacity && DistinctKeys(entries)
    }

    constructor (capacity: nat)
      ensures Valid() && entries == [] && this.capacity == capacity
    {
      entries, usage, this.capacity := [], 0, capacity;
    }

    method Get(key: K) returns (r: Option<V>)
      requires Valid()
      modifies this
      ensures Valid() && entries == Touched(old(entries), key)
      ensures r.Some? <==> HasKey(old(entries), key)
      ensures r.Some? ==> exists e :: e in old(entries) && e.key == key && e.value == r.value
    {
      var i := IndexOf(entries, key);
      TotalWithout(entries, key);
      TouchedKeys(entries, key);
      if i == |entries| {
        return None;
      }
      r := Some(entries[i].value);
      assert entries[i] in entries;
      entries := [entries[i]] + entries[..i] + entries[i + 1..];
    }

    /** Neither subtraction underflows: sizes leaving the cache are part of `usage`. */
    method Put(key: K, value: V, size: nat)
      requires Valid()
      modifies this
      ensures Valid() && entries == AfterPut(old(entries), Entry(key, value, size), capacity)
    {
      if size > capacity {
        return;
      }
      var i := IndexOf(entries, key);
      TotalWithout(entries, key);
      if i < |entries| {
        usage := usage - entries[i].size;
        entries := entries[..i] + entries[i + 1..];
      }
      ghost var rest := entries;
      entries := [Entry(key, value, size)] + entries;
      usage := usage + size;
      ghost var all := entries;
      TotalConcat([Entry(key, value, size)], rest);
      TotalOne(Entry(key, value, size));
      while usage > capacity
        invariant usage == Total(entries) && entries <= all
        invariant Fitting(all, capacity) == Fitting(entries, capacity)
        decreases |entries|
      {
        if |entries| == 0 {
          return;
        }
        var n := |entries| - 1;
        usage := usage - entries[n].size;
        entries := entries[..n];
      }
      PutKeeps(old(entries), Entry(key, value, size), capacity);
    }
  }
}
