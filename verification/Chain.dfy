/** Block headers and the tree a node keeps of them, rooted at the null hash. */
module Chain {
  import opened ByteKeys

  type Version = v: Bytes | |v| == 4 witness Zeros(4)

  /** Merkle root, time, bits and nonce. */
  type Trailer = r: Bytes | |r| == 44 witness Zeros(44)

  datatype Header = Header(version: Version, prev: Hash, trailer: Trailer)

  datatype HeaderEntry = HeaderEntry(height: nat, hash: Hash, header: Header)

  /**
   * Every header that occurs in a run, keyed by its hash, with the height the node reports for it.
   * The hash function is a parameter: storing headers under their own hash makes it collision-free here.
   */
  datatype Tree = Tree(hasher: Header -> Hash, headers: map<Hash, Header>, heights: map<Hash, nat>) {

    ghost predicate Valid() {
      && NULL_HASH !in headers
      && heights.Keys == headers.Keys
      && (forall h :: h in headers ==> hasher(headers[h]) == h)
      && (forall h {:trigger ParentOk(h)} :: h in headers ==> ParentOk(h))
    }

    ghost predicate ParentOk(h: Hash)
      requires h in headers && heights.Keys == headers.Keys
    {
      if headers[h].prev == NULL_HASH then heights[h] == 0
      else headers[h].prev in headers && heights[h] == heights[headers[h].prev] + 1
    }

    predicate Knows(h: Hash) {
      h == NULL_HASH || h in headers
    }

    ghost function Depth(h: Hash): nat
      requires Valid() && Knows(h)
    {
      if h == NULL_HASH then 0 else heights[h] + 1
    }

    ghost function Parent(h: Hash): (p: Hash)
      requires Valid() && h in headers
      ensures Knows(p) && Depth(h) == Depth(p) + 1
    {
      assert ParentOk(h);
      headers[h].prev
    }

    ghost function Entry(h: Hash): HeaderEntry
      requires Valid() && h in headers
    {
      HeaderEntry(heights[h], h, headers[h])
    }

    /** The genesis-to-`h` path. */
    ghost function PathTo(h: Hash): (p: seq<HeaderEntry>)
      requires Valid() && Knows(h)
      ensures |p| == Depth(h)
      decreases Depth(h)
    {
      if h == NULL_HASH then []
      else
        PathTo(Parent(h)) + [Entry(h)]
    }

    /** `a` is `h` or one of its ancestors (the null hash is below every block). */
    ghost predicate OnPath(a: Hash, h: Hash)
      requires Valid() && Knows(a) && Knows(h)
    {
      PathTo(a) <= PathTo(h)
    }

    lemma {:induction false} PathShape(h: Hash, i: nat)
      requires Valid() && Knows(h) && i < |PathTo(h)|
      ensures PathTo(h)[i].hash in headers && PathTo(h)[i] == Entry(PathTo(h)[i].hash)
      ensures PathTo(h)[i].height == i
      ensures PathTo(PathTo(h)[i].hash) == PathTo(h)[..i + 1]
      ensures PathTo(h)[i].header.prev == if i == 0 then NULL_HASH else PathTo(h)[i - 1].hash
      decreases Depth(h)
    {
      var parent := Parent(h);
      if i < |PathTo(parent)| {
        PathShape(parent, i);
        assert PathTo(h)[..i + 1] == PathTo(parent)[..i + 1];
      } else {
        assert PathTo(h)[..i + 1] == PathTo(h);
        if i > 0 {
          PathShape(parent, i - 1);
        }
      }
    }

    lemma PathShapeAll(h: Hash)
      requires Valid() && Knows(h)
      ensures forall i :: 0 <= i < |PathTo(h)| ==>
                PathTo(h)[i].hash in headers && PathTo(h)[i] == Entry(PathTo(h)[i].hash) && PathTo(h)[i].height == i
      ensures h != NULL_HASH ==> PathTo(h)[|PathTo(h)| - 1].hash == h
    {
      forall i | 0 <= i < |PathTo(h)|
        ensures PathTo(h)[i].hash in headers && PathTo(h)[i] == Entry(PathTo(h)[i].hash) && PathTo(h)[i].height == i
      {
        PathShape(h, i);
      }
    }

    /** `a` lies on the path to `h` exactly when it is the null hash or the entry at its own height. */
    lemma OnPathAt(a: Hash, h: Hash)
      requires Valid() && Knows(a) && Knows(h)
      ensures OnPath(a, h) <==> a == NULL_HASH || (heights[a] < |PathTo(h)| && PathTo(h)[heights[a]].hash == a)
    {
      if a != NULL_HASH {
        PathShapeAll(a);
        if heights[a] < |PathTo(h)| {
          PathShape(h, heights[a]);
        }
        if OnPath(a, h) {
          assert PathTo(h)[heights[a]] == PathTo(a)[heights[a]];
        }
      }
    }
  }

  /** Consecutive, null-rooted and correctly hashed, with no reference to a tree. */
  ghost predicate IsChain(hasher: Header -> Hash, p: seq<HeaderEntry>) {
    forall i :: 0 <= i < |p| ==> ChainAt(hasher, p, i)
  }

  ghost predicate ChainAt(hasher: Header -> Hash, p: seq<HeaderEntry>, i: nat)
    requires i < |p|
  {
    && p[i].height == i
    && p[i].hash == hasher(p[i].header)
    && p[i].header.prev == if i == 0 then NULL_HASH else p[i - 1].hash
  }

  /** A null-rooted chain made of the tree's headers is the path to its last block. */
  lemma {:induction false} PathUnique(t: Tree, p: seq<HeaderEntry>)
    requires t.Valid() && p != []
    requires IsChain(t.hasher, p)
    requires forall i :: 0 <= i < |p| ==> p[i].hash in t.headers && t.headers[p[i].hash] == p[i].header
    ensures p == t.PathTo(p[|p| - 1].hash)
  {
    var n := |p| - 1;
    var front := p[..n];
    assert ChainAt(t.hasher, p, n) && p == front + [p[n]];
    if n > 0 {
      assert forall i :: 0 <= i < n ==> ChainAt(t.hasher, p, i) ==> ChainAt(t.hasher, front, i);
      PathUnique(t, front);
    }
  }

  lemma PathIsChain(t: Tree, h: Hash)
    requires t.Valid() && t.Knows(h)
    ensures IsChain(t.hasher, t.PathTo(h))
  {
    forall i | 0 <= i < |t.PathTo(h)|
      ensures ChainAt(t.hasher, t.PathTo(h), i)
    {
      t.PathShape(h, i);
    }
  }

  function HeadersOf(es: seq<HeaderEntry>): (hs: seq<Header>)
    ensures |hs| == |es|
  {
    seq(|es|, i requires 0 <= i < |es| => es[i].header)
  }
}
