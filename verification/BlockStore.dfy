/** What the database holds after some blocks of the node have been indexed into it. */
module BlockStore {
  import opened ByteKeys
  import opened Chain
  import opened Rows
  import opened Store
  import opened Indexing

  /** The header tree together with the transactions of every block. */
  datatype Archive = Archive(tree: Tree, txs: map<Hash, seq<Tx>>) {

    ghost predicate Valid() {
      tree.Valid() && txs.Keys == tree.headers.Keys
    }

    function BlockAt(h: Hash): Block
      requires h in tree.headers && h in txs
    {
      Block(tree.headers[h], txs[h])
    }

    /** The rows of the block `h`. */
    function RowsAt(h: Hash): seq<Row>
      requires h in tree.headers && h in txs
    {
      IndexBlock(tree.hasher, BlockAt(h))
    }

    ghost predicate KeyAt(h: Hash, k: Bytes)
      requires h in tree.headers && h in txs
    {
      BlockHasKey(BlockAt(h), h, k)
    }

    ghost predicate TxidAt(h: Hash, x: Hash)
      requires h in tree.headers && h in txs
    {
      HasTxid(BlockAt(h), x)
    }

    /** No block above `h` holds the transaction id `x` again. */
    ghost predicate NoneAbove(h: Hash, x: Hash)
      requires Valid() && h in tree.headers
    {
      forall b {:trigger NoRepeatAt(h, b, x)} :: b in tree.headers ==> NoRepeatAt(h, b, x)
    }

    /** No transaction id occurs in two blocks of one path. */
    ghost predicate NoRepeats()
      requires Valid()
    {
      forall g, h, x: Hash {:trigger NoRepeatAt(g, h, x)} :: g in tree.headers && h in tree.headers ==> NoRepeatAt(g, h, x)
    }

    ghost predicate NoRepeatAt(g: Hash, h: Hash, x: Hash)
      requires Valid() && g in tree.headers && h in tree.headers
    {
      g != h && tree.OnPath(g, h) && TxidAt(g, x) ==> !TxidAt(h, x)
    }
  }

  ghost predicate Indexed(s: Contents, h: Hash) {
    BlockKey(h) in s
  }

  ghost predicate SomeBlockHas(a: Archive, hs: set<Hash>, k: Bytes)
    requires a.Valid() && hs <= a.tree.headers.Keys
  {
    exists h :: h in hs && a.KeyAt(h, k)
  }

  /** The hashes of the blocks that have a `B` row. */
  ghost function IndexedBlocks(a: Archive, s: Contents): set<Hash> {
    set h | h in a.tree.headers && Indexed(s, h)
  }

  /**
   * The keys are exactly those of the indexed blocks (and the two markers), `B` rows hold the block's
   * header, and each `T` row names an indexed block that contains the transaction.
   */
  ghost predicate Faithful(a: Archive, s: Contents)
    requires a.Valid()
  {
    && (forall k {:trigger KeyAccounted(a, s, k)} :: KeyAccounted(a, s, k))
    && (forall h: Hash {:trigger HeaderKept(a, s, h)} :: HeaderKept(a, s, h))
    && (forall x: Hash {:trigger NamesBlock(a, s, x)} :: NamesBlock(a, s, x))
  }

  /** A key is present exactly when it is a marker that was set or a key of an indexed block. */
  ghost predicate KeyAccounted(a: Archive, s: Contents, k: Bytes)
    requires a.Valid()
  {
    && (k in s ==> k == LAST_KEY || k == COMPACTED_KEY || SomeBlockHas(a, IndexedBlocks(a, s), k))
    && (SomeBlockHas(a, IndexedBlocks(a, s), k) ==> k in s)
  }

  ghost predicate HeaderKept(a: Archive, s: Contents, h: Hash)
    requires a.Valid()
  {
    Indexed(s, h) ==> h in a.tree.headers && s[BlockKey(h)] == EncodeHeader(a.tree.headers[h])
  }

  ghost predicate NamesBlock(a: Archive, s: Contents, x: Hash)
    requires a.Valid()
  {
    TxKey(x) in s ==> exists h :: h in a.tree.headers && Indexed(s, h) && a.TxidAt(h, x) && s[TxKey(x)] == h
  }

  // ---------------------------------------------------------------- writing blocks

  /** `rows` are the rows of the blocks `hs`, in any order. */
  ghost predicate RowsOf(a: Archive, rows: seq<Row>, hs: set<Hash>)
    requires a.Valid()
  {
    && hs <= a.tree.headers.Keys
    && forall r :: r in rows <==> exists h :: h in hs && r in a.RowsAt(h)
  }

  lemma RowsOfOne(a: Archive, h: Hash)
    requires a.Valid() && h in a.tree.headers
    ensures RowsOf(a, a.RowsAt(h), {h})
  {
  }

  lemma RowsOfKey(a: Archive, rows: seq<Row>, hs: set<Hash>, k: Bytes)
    requires a.Valid() && RowsOf(a, rows, hs)
    ensures Puts(rows, k) <==> SomeBlockHas(a, hs, k)
  {
    if Puts(rows, k) {
      var i :| 0 <= i < |rows| && rows[i].key == k;
      assert rows[i] in rows;
      var h :| h in hs && rows[i] in a.RowsAt(h);
      BlockRows(a.tree.hasher, a.BlockAt(h), rows[i]);
      assert a.KeyAt(h, k);
    }
    if SomeBlockHas(a, hs, k) {
      var h :| h in hs && a.KeyAt(h, k);
      BlockKeysWritten(a.tree.hasher, a.BlockAt(h), k);
      var i :| 0 <= i < |a.RowsAt(h)| && a.RowsAt(h)[i].key == k;
      assert a.RowsAt(h)[i] in rows;
    }
  }

  /** The effect of writing whole blocks, key by key. */
  lemma PutBlocksAt(a: Archive, s: Contents, rows: seq<Row>, hs: set<Hash>, k: Bytes)
    requires a.Valid() && RowsOf(a, rows, hs)
    ensures k in PutAll(s, rows) <==> k in s || SomeBlockHas(a, hs, k)
    ensures !SomeBlockHas(a, hs, k) && k in s ==> PutAll(s, rows)[k] == s[k]
    ensures SomeBlockHas(a, hs, k) ==> exists h :: h in hs && Row(k, PutAll(s, rows)[k]) in a.RowsAt(h)
  {
    PutAllAt(s, rows, k);
    RowsOfKey(a, rows, hs, k);
    if SomeBlockHas(a, hs, k) {
      var i :| 0 <= i < |rows| && rows[i] == Row(k, PutAll(s, rows)[k]);
      assert rows[i] in rows;
    }
  }

  lemma PutTx(a: Archive, s: Contents, rows: seq<Row>, hs: set<Hash>, x: Hash)
    requires a.Valid() && RowsOf(a, rows, hs)
    requires SomeBlockHas(a, hs, TxKey(x))
    ensures TxKey(x) in PutAll(s, rows)
    ensures exists h :: h in hs && a.TxidAt(h, x) && PutAll(s, rows)[TxKey(x)] == h
  {
    PutBlocksAt(a, s, rows, hs, TxKey(x));
    var h :| h in hs && Row(TxKey(x), PutAll(s, rows)[TxKey(x)]) in a.RowsAt(h);
    BlockRows(a.tree.hasher, a.BlockAt(h), Row(TxKey(x), PutAll(s, rows)[TxKey(x)]));
    assert a.TxidAt(h, x);
  }

  /** A transaction row is among a block's rows exactly when the block holds the transaction. */
  lemma TxKeyOfBlock(a: Archive, h: Hash, x: Hash)
    requires a.Valid() && h in a.tree.headers
    ensures a.KeyAt(h, TxKey(x)) <==> a.TxidAt(h, x)
  {
    assert TxKey(x)[0] == TAG_TX && BlockKey(h)[0] == TAG_BLOCK;
    if a.KeyAt(h, TxKey(x)) {
      var j :| 0 <= j < |a.BlockAt(h).txs| && HasKey(a.BlockAt(h).txs[j], TxKey(x));
      KeyTags(a.BlockAt(h).txs[j], TxKey(x));
      TxKeyInjective(x, a.BlockAt(h).txs[j].id);
    }
    if a.TxidAt(h, x) {
      var j :| 0 <= j < |a.BlockAt(h).txs| && a.BlockAt(h).txs[j].id == x;
      assert HasKey(a.BlockAt(h).txs[j], TxKey(x));
    }
  }

  /** A `B` key is among a block's rows exactly when it is the block's own. */
  lemma BlockKeyOfBlock(a: Archive, h: Hash, g: Hash)
    requires a.Valid() && h in a.tree.headers
    ensures a.KeyAt(h, BlockKey(g)) <==> g == h
  {
    forall j | 0 <= j < |a.BlockAt(h).txs|
      ensures !HasKey(a.BlockAt(h).txs[j], BlockKey(g))
    {
      KeyTags(a.BlockAt(h).txs[j], BlockKey(g));
    }
    if BlockKey(g) == BlockKey(h) {
      BlockKeyInjective(g, h);
    }
  }

  lemma BlockKeysAreLong(a: Archive, hs: set<Hash>, k: Bytes)
    requires a.Valid() && hs <= a.tree.headers.Keys && SomeBlockHas(a, hs, k)
    ensures |k| > 1
  {
    var h :| h in hs && a.KeyAt(h, k);
    if k != BlockKey(h) {
      var j :| 0 <= j < |a.BlockAt(h).txs| && HasKey(a.BlockAt(h).txs[j], k);
      KeyTags(a.BlockAt(h).txs[j], k);
    }
  }

  /** Which blocks are indexed after a write. */
  lemma PutBlocksIndexed(a: Archive, s: Contents, rows: seq<Row>, hs: set<Hash>, g: Hash)
    requires a.Valid() && RowsOf(a, rows, hs)
    ensures Indexed(PutAll(s, rows), g) <==> Indexed(s, g) || g in hs
    ensures g in hs ==> PutAll(s, rows)[BlockKey(g)] == EncodeHeader(a.tree.headers[g])
    ensures g !in hs && Indexed(s, g) ==> PutAll(s, rows)[BlockKey(g)] == s[BlockKey(g)]
  {
    PutBlocksAt(a, s, rows, hs, BlockKey(g));
    if SomeBlockHas(a, hs, BlockKey(g)) {
      var h :| h in hs && a.KeyAt(h, BlockKey(g));
      BlockKeyOfBlock(a, h, g);
      var b :| b in hs && Row(BlockKey(g), PutAll(s, rows)[BlockKey(g)]) in a.RowsAt(b);
      BlockRows(a.tree.hasher, a.BlockAt(b), Row(BlockKey(g), PutAll(s, rows)[BlockKey(g)]));
    }
    if g in hs {
      BlockKeyOfBlock(a, g, g);
      assert SomeBlockHas(a, hs, BlockKey(g));
    }
  }

  /** Writing whole blocks keeps the database faithful and adds exactly those blocks. */
  lemma PutBlocksFaithful(a: Archive, s: Contents, rows: seq<Row>, hs: set<Hash>)
    requires a.Valid() && RowsOf(a, rows, hs) && Faithful(a, s)
    ensures Faithful(a, PutAll(s, rows))
    ensures IndexedBlocks(a, PutAll(s, rows)) == IndexedBlocks(a, s) + hs
  {
    var s' := PutAll(s, rows);
    forall g: Hash
      ensures Indexed(s', g) <==> Indexed(s, g) || g in hs
      ensures HeaderKept(a, s', g)
    {
      PutBlocksIndexed(a, s, rows, hs, g);
      assert HeaderKept(a, s, g);
    }
    var before, after := IndexedBlocks(a, s), IndexedBlocks(a, s');
    assert after == before + hs;
    forall k
      ensures KeyAccounted(a, s', k)
    {
      assert KeyAccounted(a, s, k);
      PutBlocksAt(a, s, rows, hs, k);
      SomeBlockUnion(a, before, hs, k);
    }
    forall x: Hash
      ensures NamesBlock(a, s', x)
    {
      assert NamesBlock(a, s, x);
      PutNamesBlock(a, s, rows, hs, x);
    }
  }

  lemma SomeBlockUnion(a: Archive, g: set<Hash>, h: set<Hash>, k: Bytes)
    requires a.Valid() && g <= a.tree.headers.Keys && h <= a.tree.headers.Keys
    ensures SomeBlockHas(a, g + h, k) <==> SomeBlockHas(a, g, k) || SomeBlockHas(a, h, k)
  {
  }

  lemma PutNamesBlock(a: Archive, s: Contents, rows: seq<Row>, hs: set<Hash>, x: Hash)
    requires a.Valid() && RowsOf(a, rows, hs) && NamesBlock(a, s, x)
    ensures NamesBlock(a, PutAll(s, rows), x)
  {
    var s' := PutAll(s, rows);
    PutBlocksAt(a, s, rows, hs, TxKey(x));
    if SomeBlockHas(a, hs, TxKey(x)) {
      PutTx(a, s, rows, hs, x);
      var h :| h in hs && a.TxidAt(h, x) && s'[TxKey(x)] == h;
      PutBlocksIndexed(a, s, rows, hs, h);
    } else if TxKey(x) in s {
      var h :| h in a.tree.headers && Indexed(s, h) && a.TxidAt(h, x) && s[TxKey(x)] == h;
      PutBlocksIndexed(a, s, rows, hs, h);
    }
  }

  /** The empty database is faithful. */
  lemma EmptyFaithful(a: Archive)
    requires a.Valid()
    ensures Faithful(a, NO_ROWS)
    ensures IndexedBlocks(a, NO_ROWS) == {}
  {
    assert IndexedBlocks(a, NO_ROWS) == {};
  }

  /** Moving the `L` or the `F` marker leaves the blocks alone. */
  lemma MarkerFaithful(a: Archive, s: Contents, key: Bytes, value: Bytes)
    requires a.Valid() && Faithful(a, s) && (key == LAST_KEY || key == COMPACTED_KEY)
    ensures Faithful(a, s[key := value])
    ensures IndexedBlocks(a, s[key := value]) == IndexedBlocks(a, s)
  {
    var s' := s[key := value];
    forall h: Hash
      ensures BlockKey(h) != key && TxKey(h) != key
    {
      assert |BlockKey(h)| == 33 && |TxKey(h)| == 33;
    }
    assert IndexedBlocks(a, s') == IndexedBlocks(a, s);
    forall k
      ensures KeyAccounted(a, s', k)
    {
      assert KeyAccounted(a, s, k);
      if k == key && SomeBlockHas(a, IndexedBlocks(a, s), k) {
        BlockKeysAreLong(a, IndexedBlocks(a, s), k);
      }
    }
    forall x: Hash
      ensures HeaderKept(a, s', x) && NamesBlock(a, s', x)
    {
      assert HeaderKept(a, s, x) && NamesBlock(a, s, x);
      if TxKey(x) in s {
        var h :| h in a.tree.headers && Indexed(s, h) && a.TxidAt(h, x) && s[TxKey(x)] == h;
        assert Indexed(s', h);
      }
    }
  }
}
