/** Incremental indexing over whole runs: updates, reorganisations, trims, crashes and reloads. */
module IndexRun {
  import opened ByteKeys
  import opened Chain
  import opened Rows
  import opened Store
  import opened BlockStore
  import opened Reload

  function HashesOf(es: seq<HeaderEntry>): (hs: seq<Hash>)
    ensures |hs| == |es|
  {
    seq(|es|, i requires 0 <= i < |es| => es[i].hash)
  }

  // ---------------------------------------------------------------- writing a branch

  /** The store after one block and its `L` row. */
  function WriteBlock(a: Archive, s: Contents, h: Hash): Contents
    requires h in a.tree.headers && h in a.txs
  {
    PutAll(s, a.RowsAt(h))[LAST_KEY := h]
  }

  predicate AllKnown(a: Archive, hs: seq<Hash>) {
    forall i :: 0 <= i < |hs| ==> hs[i] in a.tree.headers && hs[i] in a.txs
  }

  /** The store after these blocks, one by one. */
  function WriteBlocks(a: Archive, s: Contents, hs: seq<Hash>): Contents
    requires AllKnown(a, hs)
  {
    if hs == [] then s
    else
      var n := |hs| - 1;
      WriteBlock(a, WriteBlocks(a, s, hs[..n]), hs[n])
  }

  /** The rows of one batch: for each block its rows, then its `L` row. */
  function BatchRows(a: Archive, hs: seq<Hash>): seq<Row>
    requires AllKnown(a, hs)
  {
    if hs == [] then []
    else
      var n := |hs| - 1;
      BatchRows(a, hs[..n]) + (a.RowsAt(hs[n]) + [LastRow(hs[n])])
  }

  /** A batch has the effect of its blocks one after another, so batch boundaries are block boundaries. */
  lemma {:induction false} BatchIsBlocks(a: Archive, s: Contents, hs: seq<Hash>)
    requires AllKnown(a, hs)
    ensures PutAll(s, BatchRows(a, hs)) == WriteBlocks(a, s, hs)
  {
    if hs != [] {
      var n := |hs| - 1;
      BatchIsBlocks(a, s, hs[..n]);
      PutAllConcat(s, BatchRows(a, hs[..n]), a.RowsAt(hs[n]) + [LastRow(hs[n])]);
      PutAllConcat(WriteBlocks(a, s, hs[..n]), a.RowsAt(hs[n]), [LastRow(hs[n])]);
      assert PutAll(PutAll(WriteBlocks(a, s, hs[..n]), a.RowsAt(hs[n])), [LastRow(hs[n])]) == WriteBlocks(a, s, hs);
    }
  }

  lemma WriteBlocksPush(a: Archive, s: Contents, hs: seq<Hash>, h: Hash)
    requires AllKnown(a, hs) && h in a.tree.headers && h in a.txs
    ensures AllKnown(a, hs + [h])
    ensures WriteBlocks(a, s, hs + [h]) == WriteBlock(a, WriteBlocks(a, s, hs), h)
  {
    assert (hs + [h])[..|hs|] == hs;
  }

  lemma {:induction false} WriteBlocksConcat(a: Archive, s: Contents, g: seq<Hash>, h: seq<Hash>)
    requires AllKnown(a, g)
    requires AllKnown(a, h)
    ensures AllKnown(a, g + h)
    ensures WriteBlocks(a, s, g + h) == WriteBlocks(a, WriteBlocks(a, s, g), h)
  {
    if h == [] {
      assert g + h == g;
    } else {
      var n := |h| - 1;
      WriteBlocksConcat(a, s, g, h[..n]);
      assert g + h == (g + h[..n]) + [h[n]];
      WriteBlocksPush(a, s, g + h[..n], h[n]);
    }
  }

  // ---------------------------------------------------------------- what a store promises about a path

  /** Each transaction on the path to `p` has a `T` row naming its own block. */
  ghost predicate Named(a: Archive, s: Contents, p: Hash)
    requires a.Valid() && a.tree.Knows(p)
  {
    forall h, x: Hash {:trigger NamedAt(a, s, p, h, x)} :: h in a.tree.headers ==> NamedAt(a, s, p, h, x)
  }

  ghost predicate NamedAt(a: Archive, s: Contents, p: Hash, h: Hash, x: Hash)
    requires a.Valid() && a.tree.Knows(p) && h in a.tree.headers
  {
    a.tree.OnPath(h, p) && a.TxidAt(h, x) ==> TxKey(x) in s && s[TxKey(x)] == h
  }

  /** Every row is accounted for, and the path to `p` is stored. */
  ghost predicate Good(a: Archive, s: Contents, p: Hash)
    requires a.Valid() && a.tree.Knows(p)
  {
    Faithful(a, s) && Stored(a, s, p)
  }

  /** What holds of the database at every batch boundary. */
  ghost predicate Consistent(a: Archive, s: Contents)
    requires a.Valid()
  {
    Rooted(a, s) && Faithful(a, s)
  }

  lemma OnPathTransitive(t: Tree, x: Hash, y: Hash, z: Hash)
    requires t.Valid() && t.Knows(x) && t.Knows(y) && t.Knows(z) && t.OnPath(x, y) && t.OnPath(y, z)
    ensures t.OnPath(x, z)
  {
  }

  /** A block is on its own path; any other block on it is on its parent's. */
  lemma OnParentPath(t: Tree, g: Hash, h: Hash)
    requires t.Valid() && t.Knows(g) && h in t.headers
    ensures t.OnPath(g, h) <==> g == h || t.OnPath(g, t.Parent(h))
  {
    var p, q := t.PathTo(h), t.PathTo(t.Parent(h));
    assert p == q + [t.Entry(h)] && q <= p;
    t.OnPathAt(g, h);
    t.OnPathAt(g, t.Parent(h));
    if g != NULL_HASH && t.OnPath(g, h) && g != h {
      assert t.heights[g] < |q|;
      assert p[t.heights[g]] == q[t.heights[g]];
    }
  }

  /** What is good up to `p` is good up to every ancestor of `p`. */
  lemma GoodBelow(a: Archive, s: Contents, p: Hash, q: Hash)
    requires a.Valid() && a.tree.Knows(p) && a.tree.Knows(q) && a.tree.OnPath(q, p) && Good(a, s, p)
    ensures Good(a, s, q)
  {
    hide Faithful;
    forall i | 0 <= i < |a.tree.PathTo(q)|
      ensures Indexed(s, a.tree.PathTo(q)[i].hash)
    {
      assert a.tree.PathTo(q)[i] == a.tree.PathTo(p)[i];
    }
  }

  /** A transaction that is named as far as `p` is named as far as every ancestor of `p`. */
  lemma NamedBelow(a: Archive, s: Contents, p: Hash, q: Hash, h: Hash, x: Hash)
    requires a.Valid() && a.tree.Knows(p) && a.tree.Knows(q) && a.tree.OnPath(q, p)
    requires h in a.tree.headers && NamedAt(a, s, p, h, x)
    ensures NamedAt(a, s, q, h, x)
  {
    if a.tree.OnPath(h, q) {
      OnPathTransitive(a.tree, h, q, p);
    }
  }

  lemma WriteBlockFaithful(a: Archive, s: Contents, h: Hash)
    requires a.Valid() && h in a.tree.headers && Faithful(a, s)
    ensures Faithful(a, WriteBlock(a, s, h))
    ensures IndexedBlocks(a, WriteBlock(a, s, h)) == IndexedBlocks(a, s) + {h}
    ensures LAST_KEY in WriteBlock(a, s, h) && LastOf(WriteBlock(a, s, h)) == h
  {
    RowsOfOne(a, h);
    PutBlocksFaithful(a, s, a.RowsAt(h), {h});
    MarkerFaithful(a, PutAll(s, a.RowsAt(h)), LAST_KEY, h);
  }

  /** Blocks only ever become indexed, never the other way. */
  lemma {:induction false} WriteBlocksIndexed(a: Archive, s: Contents, hs: seq<Hash>)
    requires a.Valid() && AllKnown(a, hs) && Faithful(a, s)
    ensures Faithful(a, WriteBlocks(a, s, hs))
    ensures IndexedBlocks(a, WriteBlocks(a, s, hs)) == IndexedBlocks(a, s) + set h | h in hs
  {
    hide Faithful;
    hide IndexedBlocks;
    hide WriteBlock;
    if hs != [] {
      var n := |hs| - 1;
      WriteBlocksIndexed(a, s, hs[..n]);
      WriteBlockFaithful(a, WriteBlocks(a, s, hs[..n]), hs[n]);
      assert hs == hs[..n] + [hs[n]];
    }
  }

  lemma WriteBlockStored(a: Archive, s: Contents, h: Hash)
    requires a.Valid() && h in a.tree.headers && Faithful(a, s) && Stored(a, s, a.tree.Parent(h))
    ensures Stored(a, WriteBlock(a, s, h), h)
  {
    var t := a.tree;
    var s' := WriteBlock(a, s, h);
    WriteBlockFaithful(a, s, h);
    t.PathShapeAll(h);
    forall i | 0 <= i < |t.PathTo(h)|
      ensures Indexed(s', t.PathTo(h)[i].hash)
    {
      var g := t.PathTo(h)[i].hash;
      assert i < |t.PathTo(t.Parent(h))| ==> t.PathTo(t.Parent(h))[i] == t.PathTo(h)[i];
      assert g in IndexedBlocks(a, s) || g == h;
    }
  }

  lemma WriteBlockTx(a: Archive, s: Contents, h: Hash, x: Hash)
    requires a.Valid() && h in a.tree.headers
    ensures a.TxidAt(h, x) ==> TxKey(x) in WriteBlock(a, s, h) && WriteBlock(a, s, h)[TxKey(x)] == h
    ensures !a.TxidAt(h, x) && TxKey(x) in s ==> TxKey(x) in WriteBlock(a, s, h) && WriteBlock(a, s, h)[TxKey(x)] == s[TxKey(x)]
  {
    var rows := a.RowsAt(h);
    RowsOfOne(a, h);
    TxKeyOfBlock(a, h, x);
    PutBlocksAt(a, s, rows, {h}, TxKey(x));
    assert a.TxidAt(h, x) ==> SomeBlockHas(a, {h}, TxKey(x));
    if a.TxidAt(h, x) {
      PutTx(a, s, rows, {h}, x);
    }
    assert |TxKey(x)| != |LAST_KEY|;
  }

  /** Writing a block on top of its parent: a transaction below it keeps its row, unless the block holds it again. */
  lemma WriteBlockNamed(a: Archive, s: Contents, b: Hash, h: Hash, x: Hash)
    requires a.Valid() && b in a.tree.headers && h in a.tree.headers && a.NoRepeatAt(h, b, x)
    requires NamedAt(a, s, a.tree.Parent(b), h, x)
    ensures NamedAt(a, WriteBlock(a, s, b), b, h, x)
  {
    OnParentPath(a.tree, h, b);
    WriteBlockTx(a, s, b, x);
  }

  lemma WriteBlockGood(a: Archive, s: Contents, h: Hash)
    requires a.Valid() && h in a.tree.headers && Good(a, s, a.tree.Parent(h))
    ensures Good(a, WriteBlock(a, s, h), h)
    ensures Consistent(a, WriteBlock(a, s, h)) && LastOf(WriteBlock(a, s, h)) == h
  {
    WriteBlockFaithful(a, s, h);
    WriteBlockStored(a, s, h);
  }

  /** The block `n` entries up the path to `tip`. */
  ghost function Ancestor(t: Tree, tip: Hash, n: nat): (h: Hash)
    requires t.Valid() && t.Knows(tip) && n <= |t.PathTo(tip)|
  {
    if n == 0 then NULL_HASH else t.PathTo(tip)[n - 1].hash
  }

  lemma AncestorPath(t: Tree, tip: Hash, n: nat)
    requires t.Valid() && t.Knows(tip) && n <= |t.PathTo(tip)|
    ensures t.Knows(Ancestor(t, tip, n))
    ensures t.PathTo(Ancestor(t, tip, n)) == t.PathTo(tip)[..n]
    ensures n == |t.PathTo(tip)| ==> Ancestor(t, tip, n) == tip
    ensures n > 0 ==> Ancestor(t, tip, n) in t.headers && t.Parent(Ancestor(t, tip, n)) == Ancestor(t, tip, n - 1)
  {
    if n > 0 {
      t.PathShape(tip, n - 1);
      t.PathShapeAll(tip);
    }
  }

  /** The hashes of the path to `tip` from entry `k` up to entry `n`. */
  ghost function Branch(a: Archive, tip: Hash, k: nat, n: nat): (hs: seq<Hash>)
    requires a.Valid() && a.tree.Knows(tip) && k <= n <= |a.tree.PathTo(tip)|
    ensures |hs| == n - k && AllKnown(a, hs)
  {
    a.tree.PathShapeAll(tip);
    seq(n - k, i requires 0 <= i < n - k => a.tree.PathTo(tip)[k + i].hash)
  }

  lemma NothingOnBranch(a: Archive, s: Contents, tip: Hash, k: nat)
    requires a.Valid() && a.tree.Knows(tip) && k <= |a.tree.PathTo(tip)|
    ensures WriteBlocks(a, s, Branch(a, tip, k, k)) == s
  {
  }

  lemma BranchStep(a: Archive, tip: Hash, k: nat, n: nat)
    requires a.Valid() && a.tree.Knows(tip) && k < n <= |a.tree.PathTo(tip)|
    ensures Branch(a, tip, k, n) == Branch(a, tip, k, n - 1) + [Ancestor(a.tree, tip, n)]
  {
    hide Tree.PathTo;
    hide Tree.Valid;
    var b, c := Branch(a, tip, k, n), Branch(a, tip, k, n - 1);
    assert b[n - k - 1] == Ancestor(a.tree, tip, n);
    assert forall i :: 0 <= i < n - k - 1 ==> b[i] == c[i];
  }

  /** One more block on top of what is good up to its parent. */
  lemma PushGood(a: Archive, s: Contents, hs: seq<Hash>, b: Hash)
    requires a.Valid() && AllKnown(a, hs) && b in a.tree.headers && Good(a, WriteBlocks(a, s, hs), a.tree.Parent(b))
    ensures AllKnown(a, hs + [b]) && Good(a, WriteBlocks(a, s, hs + [b]), b)
    ensures Consistent(a, WriteBlocks(a, s, hs + [b])) && LastOf(WriteBlocks(a, s, hs + [b])) == b
  {
    hide Good;
    hide Consistent;
    WriteBlocksPush(a, s, hs, b);
    hide WriteBlocks;
    WriteBlockGood(a, WriteBlocks(a, s, hs), b);
  }

  /** Every block boundary while a branch is written over a good fork point is consistent, and `L` is the last block written. */
  lemma {:induction false} BranchWritten(a: Archive, s: Contents, tip: Hash, k: nat, n: nat)
    requires a.Valid() && a.tree.Knows(tip) && k <= n <= |a.tree.PathTo(tip)|
    requires a.tree.Knows(Ancestor(a.tree, tip, k)) && Good(a, s, Ancestor(a.tree, tip, k))
    ensures a.tree.Knows(Ancestor(a.tree, tip, n))
    ensures Good(a, WriteBlocks(a, s, Branch(a, tip, k, n)), Ancestor(a.tree, tip, n))
    ensures n > k ==>
              && Consistent(a, WriteBlocks(a, s, Branch(a, tip, k, n)))
              && LastOf(WriteBlocks(a, s, Branch(a, tip, k, n))) == Ancestor(a.tree, tip, n)
    decreases n
  {
    hide Good;
    hide Consistent;
    hide WriteBlocks;
    hide Branch;
    hide Tree.PathTo;
    if n == k {
      NothingOnBranch(a, s, tip, k);
    }
    if n > k {
      AncestorPath(a.tree, tip, n);
      BranchWritten(a, s, tip, k, n - 1);
      BranchStep(a, tip, k, n);
      PushGood(a, s, Branch(a, tip, k, n - 1), Ancestor(a.tree, tip, n));
    }
  }

  /** While a branch is written, a transaction named as far as the fork stays named as far as the last block written. */
  lemma {:induction false} BranchNamed(a: Archive, s: Contents, tip: Hash, k: nat, n: nat, h: Hash, x: Hash)
    requires a.Valid() && a.tree.Knows(tip) && k <= n <= |a.tree.PathTo(tip)|
    requires h in a.tree.headers && a.NoneAbove(h, x)
    requires a.tree.Knows(Ancestor(a.tree, tip, k)) && NamedAt(a, s, Ancestor(a.tree, tip, k), h, x)
    ensures a.tree.Knows(Ancestor(a.tree, tip, n))
    ensures NamedAt(a, WriteBlocks(a, s, Branch(a, tip, k, n)), Ancestor(a.tree, tip, n), h, x)
    decreases n
  {
    hide NamedAt;
    hide WriteBlock;
    if n > k {
      var b := Ancestor(a.tree, tip, n);
      AncestorPath(a.tree, tip, n);
      BranchNamed(a, s, tip, k, n - 1, h, x);
      BranchStep(a, tip, k, n);
      WriteBlocksPush(a, s, Branch(a, tip, k, n - 1), b);
      assert a.NoRepeatAt(h, b, x);
      WriteBlockNamed(a, WriteBlocks(a, s, Branch(a, tip, k, n - 1)), b, h, x);
    }
  }

  // ---------------------------------------------------------------- ancestor closure

  /** Every indexed block is stored with all its ancestors. */
  ghost predicate Closed(a: Archive, s: Contents)
    requires a.Valid()
  {
    forall h {:trigger Indexed(s, h)} :: h in a.tree.headers && Indexed(s, h) ==> Stored(a, s, h)
  }

  lemma WriteBlockClosed(a: Archive, s: Contents, h: Hash)
    requires a.Valid() && h in a.tree.headers && Good(a, s, a.tree.Parent(h)) && Closed(a, s)
    ensures Closed(a, WriteBlock(a, s, h))
  {
    var s' := WriteBlock(a, s, h);
    WriteBlockFaithful(a, s, h);
    WriteBlockStored(a, s, h);
    hide Faithful;
    hide WriteBlock;
    forall g | g in a.tree.headers && Indexed(s', g)
      ensures Stored(a, s', g)
    {
      assert g in IndexedBlocks(a, s');
      if g != h {
        assert Indexed(s, g);
        StoredGrows(a, s, s', g);
      }
    }
  }

  lemma StoredGrows(a: Archive, s: Contents, s': Contents, h: Hash)
    requires a.Valid() && a.tree.Knows(h) && Stored(a, s, h) && IndexedBlocks(a, s) <= IndexedBlocks(a, s')
    ensures Stored(a, s', h)
  {
    forall i | 0 <= i < |a.tree.PathTo(h)|
      ensures Indexed(s', a.tree.PathTo(h)[i].hash)
    {
      a.tree.PathShape(h, i);
      assert a.tree.PathTo(h)[i].hash in IndexedBlocks(a, s);
    }
  }

  lemma PushClosed(a: Archive, s: Contents, hs: seq<Hash>, b: Hash)
    requires a.Valid() && AllKnown(a, hs) && b in a.tree.headers
    requires Good(a, WriteBlocks(a, s, hs), a.tree.Parent(b)) && Closed(a, WriteBlocks(a, s, hs))
    ensures AllKnown(a, hs + [b]) && Closed(a, WriteBlocks(a, s, hs + [b]))
  {
    hide Good;
    hide Closed;
    WriteBlocksPush(a, s, hs, b);
    hide WriteBlocks;
    WriteBlockClosed(a, WriteBlocks(a, s, hs), b);
  }

  /** Writing a branch over a good fork point keeps the indexed blocks closed under ancestors. */
  lemma {:induction false} BranchClosed(a: Archive, s: Contents, tip: Hash, k: nat, n: nat)
    requires a.Valid() && a.tree.Knows(tip) && k <= n <= |a.tree.PathTo(tip)|
    requires a.tree.Knows(Ancestor(a.tree, tip, k)) && Good(a, s, Ancestor(a.tree, tip, k)) && Closed(a, s)
    ensures Closed(a, WriteBlocks(a, s, Branch(a, tip, k, n)))
    decreases n
  {
    hide Good;
    hide Consistent;
    hide Closed;
    hide WriteBlocks;
    hide Branch;
    hide Tree.PathTo;
    if n == k {
      NothingOnBranch(a, s, tip, k);
    }
    if n > k {
      AncestorPath(a.tree, tip, n);
      BranchClosed(a, s, tip, k, n - 1);
      BranchWritten(a, s, tip, k, n - 1);
      BranchStep(a, tip, k, n);
      PushClosed(a, s, Branch(a, tip, k, n - 1), Ancestor(a.tree, tip, n));
    }
  }
}
