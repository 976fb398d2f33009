/** The database of any run and the mempool index of any tracked set are stores the query theorems apply to. */
module Served {
  import opened ByteKeys
  import opened Chain
  import opened HeaderChain
  import opened HeaderSync
  import opened Rows
  import opened Store
  import opened Indexing
  import opened BlockStore
  import opened Reload
  import opened IndexRun
  import opened CrashRuns
  import opened TxStore
  import opened Query
  import opened Utxos
  import Mempool

  /** The transactions of every block that has been indexed, abandoned ones included. */
  ghost function IndexedTxs(a: Archive, s: Contents): set<Tx>
    requires a.Valid()
  {
    set h, j | h in IndexedBlocks(a, s) && 0 <= j < |a.txs[h]| :: a.txs[h][j]
  }

  /** A faithful database serves exactly the transactions of its indexed blocks. */
  lemma DatabaseServes(a: Archive, s: Contents)
    requires a.Valid() && Faithful(a, s)
    ensures Serves(s, IndexedTxs(a, s))
  {
    forall k
      ensures ServesAt(s, IndexedTxs(a, s), k)
    {
      DatabaseServesAt(a, s, k);
    }
  }

  lemma DatabaseServesAt(a: Archive, s: Contents, k: Bytes)
    requires a.Valid() && Faithful(a, s)
    ensures ServesAt(s, IndexedTxs(a, s), k)
  {
    var txs := IndexedTxs(a, s);
    assert KeyAccounted(a, s, k);
    if IsTxRowKey(k) && k in s {
      var h :| h in IndexedBlocks(a, s) && a.KeyAt(h, k);
      assert BlockKey(h)[0] == TAG_BLOCK;
      var j :| 0 <= j < |a.BlockAt(h).txs| && HasKey(a.BlockAt(h).txs[j], k);
      assert a.txs[h][j] in txs;
      TxKeyValue(a, s, a.txs[h][j], k);
    }
    if IsTxRowKey(k) && SomeTxHas(txs, k) {
      var tx :| tx in txs && HasKey(tx, k);
      var h, j :| h in IndexedBlocks(a, s) && 0 <= j < |a.txs[h]| && tx == a.txs[h][j];
      assert HasKey(a.BlockAt(h).txs[j], k);
      assert a.KeyAt(h, k);
    }
  }

  lemma TxKeyValue(a: Archive, s: Contents, tx: Tx, k: Bytes)
    requires a.Valid() && Faithful(a, s) && k in s && HasKey(tx, k)
    ensures k[0] == TAG_TX ==> |s[k]| == HASH_LEN
  {
    KeyTags(tx, k);
    if k == TxKey(tx.id) {
      assert NamesBlock(a, s, tx.id);
    }
  }

  /** The mempool index serves exactly the tracked transactions. */
  lemma MempoolServes(items: map<Hash, Tx>)
    ensures Serves(Mempool.View(Mempool.IndexFor(items)), items.Values)
  {
    var s := Mempool.View(Mempool.IndexFor(items));
    forall k
      ensures ServesAt(s, items.Values, k)
    {
      Mempool.ReaderSees(items, k);
      hide Mempool.IndexFor;
      if h :| h in items && HasKey(items[h], k) {
        assert items[h] in items.Values;
      }
      if SomeTxHas(items.Values, k) {
        var tx :| tx in items.Values && HasKey(tx, k);
        var h :| h in items && items[h] == tx;
      }
    }
  }

  /** A tracked transaction is always at height 0, so every mempool lookup sees it. */
  lemma MempoolHeight(t: Tree, v: Headers, items: map<Hash, Tx>, txid: Hash)
    requires t.Valid() && Synced(t, v)
    ensures TxHeight(Mempool.View(Mempool.IndexFor(items)), v, txid) == 0
  {
    Mempool.ReaderSees(items, TxKey(txid));
    hide Mempool.IndexFor;
    assert v.Lookup(NULL_HASH).None?;
  }

  /** A transaction confirmed in the header list and named by its block is reported at the height of that block. */
  lemma ConfirmedHeight(a: Archive, sys: System, h: Hash, x: Hash)
    requires a.Valid() && Invariant(a, sys) && h in a.tree.headers && NamedIn(a, sys.history, h, x)
    requires a.TxidAt(h, x) && a.tree.OnPath(h, sys.headers.Tip())
    ensures TxHeight(sys.Current(), sys.headers, x) == a.tree.heights[h]
  {
    var s := sys.Current();
    assert Consistent(a, s);
    OnPathTransitive(a.tree, h, sys.headers.Tip(), LastOf(s));
    assert NamedAt(a, s, LastOf(s), h, x);
    LookupIsSearch(a.tree, sys.headers, h);
  }

  /** After every run from an empty database, a confirmed transaction is reported at the height of its own block. */
  lemma ConfirmedAfterRun(a: Archive, events: seq<Event>, h: Hash, x: Hash)
    requires a.Valid() && h in a.tree.headers && a.TxidAt(h, x) && a.NoneAbove(h, x)
    requires forall i :: 0 <= i < |events| ==> a.tree.Knows(events[i].best)
    ensures CrashRuns.Run(a, START, events).Ok? && CrashRuns.Invariant(a, CrashRuns.Run(a, START, events).value)
    ensures var sys := CrashRuns.Run(a, START, events).value;
            a.tree.OnPath(h, sys.headers.Tip()) ==> TxHeight(sys.Current(), sys.headers, x) == a.tree.heights[h]
  {
    InitialInvariant(a);
    a.tree.OnPathAt(h, NULL_HASH);
    RunNames(a, START, events, h, x);
    hide CrashRuns.Run;
    hide NamedIn;
    hide TxHeight;
    var sys := CrashRuns.Run(a, START, events).value;
    if a.tree.OnPath(h, sys.headers.Tip()) {
      ConfirmedHeight(a, sys, h, x);
    }
  }

  /** No reported height reaches the length of the header list. */
  lemma HeightBelowLength(t: Tree, s: Contents, v: Headers, x: Hash)
    requires t.Valid() && Synced(t, v)
    ensures TxHeight(s, v, x) <= |v.entries|
  {
    LookupIsSearch(t, v, RecordedBlock(s, x));
  }

  /** What the UTXO query reads after a run, next to the mempool. */
  ghost function SidesOf(a: Archive, sys: System, items: map<Hash, Tx>): Sides
    requires a.Valid() && sys.history != []
  {
    Sides(sys.Current(), Mempool.View(Mempool.IndexFor(items)), IndexedTxs(a, sys.Current()), items.Values, sys.headers)
  }

  /** Blocks spend only outputs of transactions in the same block or in a block below it. */
  ghost predicate SpendsExisting(a: Archive)
    requires a.Valid()
  {
    forall h, tx, op: OutPoint {:trigger CreatedBelow(a, h, op), tx in a.txs[h], op in tx.inputs} ::
      h in a.tree.headers && tx in a.txs[h] && op in tx.inputs && op.txid != NULL_HASH ==> CreatedBelow(a, h, op)
  }

  ghost predicate CreatedBelow(a: Archive, h: Hash, op: OutPoint)
    requires a.Valid() && h in a.tree.headers
  {
    exists g :: g in a.tree.headers && a.tree.OnPath(g, h) && a.TxidAt(g, op.txid)
  }

  /** A tracked transaction is the indexed one of the same id, if there is one. */
  ghost predicate SameIdSameTx(indexed: set<Tx>, tracked: set<Tx>) {
    forall t, u :: t in indexed && u in tracked && t.id == u.id ==> t == u
  }

  /** When the indexed blocks are closed under ancestors, the output of an indexed spend is indexed too. */
  lemma SpentIsIndexed(a: Archive, s: Contents, u: Tx, op: OutPoint)
    requires a.Valid() && SpendsExisting(a) && Closed(a, s)
    requires u in IndexedTxs(a, s) && op in u.inputs && op.txid != NULL_HASH
    ensures exists t :: t in IndexedTxs(a, s) && t.id == op.txid
  {
    var h, j :| h in IndexedBlocks(a, s) && 0 <= j < |a.txs[h]| && u == a.txs[h][j];
    assert u in a.txs[h];
    assert CreatedBelow(a, h, op);
    var g :| g in a.tree.headers && a.tree.OnPath(g, h) && a.TxidAt(g, op.txid);
    assert Indexed(s, h);
    a.tree.OnPathAt(g, h);
    assert Indexed(s, g) && g in IndexedBlocks(a, s);
    var i :| 0 <= i < |a.BlockAt(g).txs| && a.BlockAt(g).txs[i].id == op.txid;
    assert a.txs[g][i] in IndexedTxs(a, s);
  }

  /** So an output paid in the mempool and spent in the database is paid in the database too. */
  lemma PoolOutputsUnspent(a: Archive, s: Contents, tracked: set<Tx>, scriptHash: Hash, op: OutPoint)
    requires a.Valid() && Closed(a, s) && SpendsExisting(a) && SameIdSameTx(IndexedTxs(a, s), tracked) && op.txid != NULL_HASH
    requires PaidBy(tracked, scriptHash, op) && SpentBy(IndexedTxs(a, s), op)
    ensures PaidBy(IndexedTxs(a, s), scriptHash, op)
  {
    hide Closed;
    hide SpendsExisting;
    hide IndexedTxs;
    var u :| u in IndexedTxs(a, s) && op in u.inputs;
    SpentIsIndexed(a, s, u, op);
    var t :| t in IndexedTxs(a, s) && t.id == op.txid;
    var v :| v in tracked && v.id == op.txid && op.vout < |v.outputs| && v.outputs[op.vout] == scriptHash;
    assert t == v;
  }

  /** A header list no longer than the bound has no height above it. */
  lemma ChainIsShort(t: Tree, v: Headers)
    requires t.Valid() && Synced(t, v) && |v.entries| <= 9999999999
    ensures ShortList(v)
  {
    t.PathShapeAll(v.Tip());
  }

  /**
   * When nothing collides, blocks spend only what exists and the indexed blocks are closed under ancestors,
   * the UTXO query answers with exactly the unspent outputs, whatever mempool is tracked.
   */
  lemma UtxosOfSystem(a: Archive, sys: System, items: map<Hash, Tx>, scriptHash: Hash, op: OutPoint)
    requires a.Valid() && CrashRuns.Invariant(a, sys) && Closed(a, sys.Current()) && |sys.headers.entries| <= 9999999999
    requires SpendsExisting(a) && SameIdSameTx(IndexedTxs(a, sys.Current()), items.Values)
    requires SidesOf(a, sys, items).CollisionFree(scriptHash)
    ensures var w := SidesOf(a, sys, items);
            && StatusOf(w.db, w.pool, w.headers, scriptHash, 9999999999, Limit(false, 0)).Ok?
            && (w.Listed(scriptHash, op) <==> w.Unspent(scriptHash, op))
  {
    hide PaidBy;
    hide SpentBy;
    hide Mempool.IndexFor;
    hide IndexedTxs;
    hide StatusOf;
    hide Sides.Listed;
    hide Closed;
    hide SpendsExisting;
    hide SameIdSameTx;
    hide CrashRuns.AllConsistent;
    var w := SidesOf(a, sys, items);
    forall q | w.PaidInPool(scriptHash, q) && w.SpentIn(q)
      ensures w.PaidIn(scriptHash, q)
    {
      assert w.CleanAt(scriptHash, q);
      PoolOutputsUnspent(a, sys.Current(), items.Values, scriptHash, q);
    }
    ServedExactly(a, sys, items, scriptHash, op);
  }

  lemma ServedExactly(a: Archive, sys: System, items: map<Hash, Tx>, scriptHash: Hash, op: OutPoint)
    requires a.Valid() && CrashRuns.Invariant(a, sys) && |sys.headers.entries| <= 9999999999
    requires var w := SidesOf(a, sys, items);
             && w.CollisionFree(scriptHash)
             && forall q :: w.PaidInPool(scriptHash, q) && !w.PaidIn(scriptHash, q) && w.SpentIn(q) ==> w.SpentInPool(q)
    ensures var w := SidesOf(a, sys, items);
            && StatusOf(w.db, w.pool, w.headers, scriptHash, 9999999999, Limit(false, 0)).Ok?
            && (w.Listed(scriptHash, op) <==> w.Unspent(scriptHash, op))
  {
    assert Consistent(a, sys.Current());
    DatabaseServes(a, sys.Current());
    MempoolServes(items);
    ChainIsShort(a.tree, sys.headers);
    hide Serves;
    hide ShortList;
    hide Sides.CollisionFree;
    hide Sides.PaidIn;
    hide Sides.PaidInPool;
    hide Sides.SpentIn;
    hide Sides.SpentInPool;
    hide Sides.Listed;
    hide Sides.Unspent;
    hide StatusOf;
    UtxosExact(SidesOf(a, sys, items), scriptHash);
  }

  /** So it does after every run of updates and crashes, from an empty database or any other closed one. */
  lemma UtxosAfterRun(a: Archive, start: System, events: seq<Event>, items: map<Hash, Tx>, scriptHash: Hash, op: OutPoint)
    requires a.Valid() && SpendsExisting(a) && (start == START || (CrashRuns.Invariant(a, start) && AllClosed(a, start.history)))
    requires forall i :: 0 <= i < |events| ==> a.tree.Knows(events[i].best)
    ensures CrashRuns.Run(a, start, events).Ok? && CrashRuns.Invariant(a, CrashRuns.Run(a, start, events).value)
    ensures var sys := CrashRuns.Run(a, start, events).value;
            var w := SidesOf(a, sys, items);
            |sys.headers.entries| <= 9999999999 && SameIdSameTx(w.indexed, w.tracked) && w.CollisionFree(scriptHash) ==>
              && StatusOf(w.db, w.pool, w.headers, scriptHash, 9999999999, Limit(false, 0)).Ok?
              && (w.Listed(scriptHash, op) <==> w.Unspent(scriptHash, op))
  {
    StartClosed(a);
    RunCloses(a, start, events);
    var sys := CrashRuns.Run(a, start, events).value;
    hide CrashRuns.Run;
    hide Closed;
    hide SpendsExisting;
    hide Sides.CollisionFree;
    hide Sides.Listed;
    hide Sides.Unspent;
    hide StatusOf;
    var w := SidesOf(a, sys, items);
    if |sys.headers.entries| <= 9999999999 && SameIdSameTx(w.indexed, w.tracked) && w.CollisionFree(scriptHash) {
      UtxosOfSystem(a, sys, items, scriptHash, op);
    }
  }

  lemma StartClosed(a: Archive)
    requires a.Valid()
    ensures CrashRuns.Invariant(a, START) && AllClosed(a, START.history)
  {
    InitialInvariant(a);
  }
}
