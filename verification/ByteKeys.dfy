/** Byte strings, hashes and the lexicographic key order shared by both stores. */
module ByteKeys {

  newtype byte = x: int | 0 <= x < 0x100

  type Bytes = seq<byte>

  function Zeros(n: nat): (s: Bytes)
    ensures |s| == n
    ensures forall i :: 0 <= i < n ==> s[i] == 0
  {
    if n == 0 then [] else [0] + Zeros(n - 1)
  }

  const HASH_LEN := 32
  const HASH_PREFIX_LEN := 8

  type Hash = h: Bytes | |h| == HASH_LEN witness Zeros(HASH_LEN)

  type HashPrefix = p: Bytes | |p| == HASH_PREFIX_LEN witness Zeros(HASH_PREFIX_LEN)

  /** `Sha256dHash::default()`: the parent of a genesis block. */
  const NULL_HASH: Hash := Zeros(HASH_LEN)

  function PrefixOfHash(h: Hash): HashPrefix {
    h[..HASH_PREFIX_LEN]
  }

  /** A panic (failed assertion, `unwrap` or `expect`) is kept apart from an error return. */
  datatype Outcome<+T> = Ok(value: T) | Err | Panic

  datatype Option<+T> = None | Some(value: T)

  // ---------------------------------------------------------------- order

  /** Lexicographic order on keys, as RocksDB and `BTreeMap` use it. */
  predicate Leq(a: Bytes, b: Bytes) {
    a == [] || (b != [] && (a[0] < b[0] || (a[0] == b[0] && Leq(a[1..], b[1..]))))
  }

  lemma {:induction false} LeqReflexive(a: Bytes)
    ensures Leq(a, a)
  {
    if a != [] {
      LeqReflexive(a[1..]);
    }
  }

  lemma {:induction false} LeqTotal(a: Bytes, b: Bytes)
    ensures Leq(a, b) || Leq(b, a)
  {
    if a != [] && b != [] && a[0] == b[0] {
      LeqTotal(a[1..], b[1..]);
    }
  }

  lemma {:induction false} LeqAntisymmetric(a: Bytes, b: Bytes)
    requires Leq(a, b) && Leq(b, a)
    ensures a == b
  {
    if a != [] {
      LeqAntisymmetric(a[1..], b[1..]);
      assert a == [a[0]] + a[1..] && b == [b[0]] + b[1..];
    }
  }

  lemma {:induction false} LeqTransitive(a: Bytes, b: Bytes, c: Bytes)
    requires Leq(a, b) && Leq(b, c)
    ensures Leq(a, c)
  {
    if a != [] && a[0] == b[0] == c[0] {
      LeqTransitive(a[1..], b[1..], c[1..]);
    }
  }

  /** A prefix is never above the keys that start with it. */
  lemma {:induction false} PrefixLeq(p: Bytes, k: Bytes)
    requires p <= k
    ensures Leq(p, k)
  {
    if p != [] {
      PrefixLeq(p[1..], k[1..]);
    }
  }

  /** Keys sharing a prefix are contiguous: nothing without the prefix lies between it and such a key. */
  lemma {:induction false} PrefixContiguous(p: Bytes, a: Bytes, b: Bytes)
    requires Leq(p, a) && Leq(a, b) && p <= b
    ensures p <= a
  {
    if p != [] {
      PrefixContiguous(p[1..], a[1..], b[1..]);
      assert p == [p[0]] + p[1..] && a == [a[0]] + a[1..];
    }
  }

  // ---------------------------------------------------------------- ascending enumeration

  /** Strictly before in key order. */
  ghost predicate Precedes(a: Bytes, b: Bytes) {
    Leq(a, b) && a != b
  }

  /** The first byte that differs decides. */
  lemma {:induction false} FirstDifference(p: Bytes, x: byte, y: byte, a: Bytes, b: Bytes)
    requires x < y
    ensures Precedes(p + [x] + a, p + [y] + b) && !Leq(p + [y] + b, p + [x] + a)
  {
    if p == [] {
      assert ([x] + a)[0] == x && ([y] + b)[0] == y;
      assert p + [x] + a == [x] + a && p + [y] + b == [y] + b;
    } else {
      FirstDifference(p[1..], x, y, a, b);
      assert (p + [x] + a)[1..] == p[1..] + [x] + a && (p + [y] + b)[1..] == p[1..] + [y] + b;
    }
  }

  ghost predicate StrictlyAscending(s: seq<Bytes>) {
    forall i, j :: 0 <= i < j < |s| ==> Leq(s[i], s[j]) && s[i] != s[j]
  }

  lemma {:induction false} LeastExists(keys: set<Bytes>)
    requires keys != {}
    ensures exists m :: IsLeast(keys, m)
  {
    var x :| x in keys;
    var rest := keys - {x};
    LeqReflexive(x);
    if rest == {} {
      assert keys == {x};
      assert IsLeast(keys, x);
    } else {
      LeastExists(rest);
      var m :| IsLeast(rest, m);
      LeqTotal(m, x);
      var l := if Leq(m, x) then m else x;
      forall k | k in keys
        ensures Leq(l, k)
      {
        if k != x {
          assert k in rest;
          if l == x {
            LeqTransitive(x, m, k);
          }
        }
      }
      assert IsLeast(keys, l);
    }
  }

  predicate IsLeast(keys: set<Bytes>, m: Bytes) {
    m in keys && forall k :: k in keys ==> Leq(m, k)
  }

  lemma LeastUnique(keys: set<Bytes>)
    ensures forall a, b :: IsLeast(keys, a) && IsLeast(keys, b) ==> a == b
  {
    forall a, b | IsLeast(keys, a) && IsLeast(keys, b)
      ensures a == b
    {
      LeqAntisymmetric(a, b);
    }
  }

  function Least(keys: set<Bytes>): (m: Bytes)
    requires keys != {}
    ensures IsLeast(keys, m)
  {
    LeastExists(keys);
    LeastUnique(keys);
    var m :| m in keys && IsLeast(keys, m);
    m
  }

  /** The iteration order of an ordered map with these keys. */
  function Ascending(keys: set<Bytes>): (s: seq<Bytes>)
    ensures forall k :: k in s <==> k in keys
    ensures StrictlyAscending(s)
  {
    if keys == {} then [] else
      var m := Least(keys);
      [m] + Ascending(keys - {m})
  }

  /** Only one strictly ascending sequence has a given set of elements. */
  lemma {:induction false} AscendingUnique(s: seq<Bytes>, t: seq<Bytes>)
    requires StrictlyAscending(s) && StrictlyAscending(t)
    requires forall k :: k in s <==> k in t
    ensures s == t
  {
    assert s != [] ==> s[0] in s;
    assert t != [] ==> t[0] in t;
    if s != [] {
      HeadsAgree(s, t);
      forall k
        ensures k in s[1..] <==> k in t[1..]
      {
        TailMembers(s, k);
        TailMembers(t, k);
      }
      AscendingUnique(s[1..], t[1..]);
      assert s == [s[0]] + s[1..] && t == [t[0]] + t[1..];
    }
  }

  lemma HeadsAgree(s: seq<Bytes>, t: seq<Bytes>)
    requires StrictlyAscending(s) && StrictlyAscending(t)
    requires s != [] && t != [] && s[0] in t && t[0] in s
    ensures s[0] == t[0]
  {
    var i :| 0 <= i < |t| && t[i] == s[0];
    var j :| 0 <= j < |s| && s[j] == t[0];
    if i != 0 && j != 0 {
      LeqAntisymmetric(s[0], t[0]);
    }
  }

  lemma TailMembers(s: seq<Bytes>, k: Bytes)
    requires StrictlyAscending(s) && s != []
    ensures k in s[1..] <==> k in s && k != s[0]
  {
    if k in s && k != s[0] {
      var i :| 0 <= i < |s| && s[i] == k;
      assert s[1..][i - 1] == k;
    }
  }
}
