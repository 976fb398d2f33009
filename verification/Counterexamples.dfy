/** Inputs on which the code does less than one might expect, each next to the theorem that says exactly when. */
module Counterexamples {
  import opened ByteKeys
  import opened Chain
  import opened HeaderChain
  import opened Daemon
  import opened HeaderSync
  import opened Rows
  import opened Store
  import opened Indexing
  import opened BlockStore
  import opened Reload
  import opened IndexRun
  import opened TxStore
  import opened Query
  import opened Utxos
  import opened Served
  import opened TwoBranches
  import CrashRuns
  import BulkIndex
  import BulkPipeline
  import BulkProgress
  import BulkFinish
  import Mempool
  import Oldest

  // ---------------------------------------------------------------- header downloads and reloads

  /** Any tip other than the best block but at its height makes `get_all_headers` panic. */
  lemma SiblingTipPanics(t: Tree, best: Hash, tip: Hash)
    requires t.Valid() && best in t.headers && tip in t.headers && tip != best && t.heights[tip] == t.heights[best]
    ensures AllHeaders(Node(t, best), tip) == Panic
  {
    t.OnPathAt(tip, best);
    t.PathShapeAll(best);
  }

  lemma RightTipPanics()
    ensures Branches().Valid() && AllHeaders(Node(Branches(), LEFT), RIGHT) == Panic
  {
    NamesDiffer();
    BranchesValid();
    SiblingTipPanics(Branches(), LEFT, RIGHT);
  }

  /** A database holding one block and its `L` row reloads exactly when that block has no parent. */
  lemma LoneBlockReloads(a: Archive, h: Hash)
    requires a.Valid() && h in a.tree.headers
    ensures Reloaded(a.tree.hasher, WriteBlock(a, NO_ROWS, h)).Ok? <==> a.tree.Parent(h) == NULL_HASH
  {
    var s := WriteBlock(a, NO_ROWS, h);
    EmptyFaithful(a);
    WriteBlockFaithful(a, NO_ROWS, h);
    ReloadNeedsAncestors(a, s);
    hide Faithful;
    hide WriteBlock;
    hide Reloaded;
    var path := a.tree.PathTo(h);
    a.tree.PathShapeAll(h);
    assert path == a.tree.PathTo(a.tree.Parent(h)) + [a.tree.Entry(h)];
    if a.tree.Parent(h) != NULL_HASH {
      assert path[0].hash != h && path[0].hash !in IndexedBlocks(a, s);
    } else {
      assert path == [a.tree.Entry(h)];
      assert h in IndexedBlocks(a, s);
    }
  }

  lemma MissingRootPanics(root: seq<Tx>, left: seq<Tx>, right: seq<Tx>)
    ensures BranchArchive(root, left, right).Valid()
    ensures !Reloaded(Carried, WriteBlock(BranchArchive(root, left, right), NO_ROWS, LEFT)).Ok?
  {
    NamesDiffer();
    BranchesValid();
    LoneBlockReloads(BranchArchive(root, left, right), LEFT);
  }

  // ---------------------------------------------------------------- two spenders after a reorganisation

  /**
   * In every system of a run: two indexed blocks, abandoned or not, whose different transactions spend one
   * output make the at-most-one assertion fail, for every bound above the heights of the list.
   */
  lemma TwoSpendersPanic(a: Archive, sys: CrashRuns.System, g: Hash, t: Tx, h: Hash, u: Tx, op: OutPoint, bound: nat)
    requires a.Valid() && CrashRuns.Invariant(a, sys) && bound >= |sys.headers.entries| && op.txid != NULL_HASH
    requires g in IndexedBlocks(a, sys.Current()) && t in a.txs[g] && op in t.inputs
    requires h in IndexedBlocks(a, sys.Current()) && u in a.txs[h] && op in u.inputs && t.id != u.id
    ensures SpendingInputOf(sys.Current(), sys.headers, op, bound) == Panic
  {
    var s, v := sys.Current(), sys.headers;
    assert Consistent(a, s);
    DatabaseServes(a, s);
    hide Serves;
    hide SpendingInputOf;
    var txs := IndexedTxs(a, s);
    BlockTxIndexed(a, s, g, t);
    BlockTxIndexed(a, s, h, u);
    SpendingExact(s, v, txs, op, bound);
    SpendsIsCandidate(a, sys, txs, t, op, bound);
    SpendsIsCandidate(a, sys, txs, u, op, bound);
  }

  lemma BlockTxIndexed(a: Archive, s: Contents, h: Hash, tx: Tx)
    requires a.Valid() && h in IndexedBlocks(a, s) && tx in a.txs[h]
    ensures tx in IndexedTxs(a, s)
  {
    var j :| 0 <= j < |a.txs[h]| && a.txs[h][j] == tx;
  }

  lemma SpendsIsCandidate(a: Archive, sys: CrashRuns.System, txs: set<Tx>, tx: Tx, op: OutPoint, bound: nat)
    requires a.Valid() && CrashRuns.Invariant(a, sys) && bound >= |sys.headers.entries|
    requires tx in txs && op in tx.inputs && op.txid != NULL_HASH
    ensures Candidate(sys.Current(), sys.headers, txs, op, bound, tx.id)
  {
    HeightBelowLength(a.tree, sys.Current(), sys.headers, tx.id);
    var i :| 0 <= i < |tx.inputs| && tx.inputs[i] == op;
    assert InputLike(tx.inputs[i], op.txid, op.vout);
    assert SpendsLike(tx, op.txid, op.vout);
  }

  /** Updating to `g` and then to `h` from an empty database ends in `sys`. */
  ghost predicate AfterBoth(a: Archive, g: Hash, h: Hash, sys: CrashRuns.System) {
    && a.Valid() && g in a.tree.headers && h in a.tree.headers && sys.history != []
    && CrashRuns.Run(a, CrashRuns.START, [CrashRuns.Update(g), CrashRuns.Update(h)]) == Ok(sys)
  }

  lemma BothUpdates(a: Archive, g: Hash, h: Hash, middle: CrashRuns.System, sys: CrashRuns.System)
    requires a.Valid() && g in a.tree.headers && h in a.tree.headers && middle.history != [] && sys.history != []
    requires CrashRuns.Updated(a, CrashRuns.START, g) == Ok(middle) && CrashRuns.Updated(a, middle, h) == Ok(sys)
    ensures AfterBoth(a, g, h, sys)
  {
    hide CrashRuns.Updated;
    var first, second := CrashRuns.Update(g), CrashRuns.Update(h);
    assert CrashRuns.Run(a, sys, []) == Ok(sys);
    assert [second][1..] == [] && [first, second][1..] == [second];
    assert CrashRuns.Step(a, middle, second) == Ok(sys) && CrashRuns.Run(a, middle, [second]) == Ok(sys);
  }

  /** An update to one branch and then to the other leaves both tips indexed. */
  lemma BothTipsIndexed(a: Archive, g: Hash, h: Hash) returns (sys: CrashRuns.System)
    requires a.Valid() && g in a.tree.headers && h in a.tree.headers
    ensures AfterBoth(a, g, h, sys) && CrashRuns.Invariant(a, sys) && sys.headers.entries == a.tree.PathTo(h)
    ensures g in IndexedBlocks(a, sys.Current()) && h in IndexedBlocks(a, sys.Current())
  {
    hide AfterBoth;
    hide CrashRuns.Updated;
    hide CrashRuns.AllConsistent;
    hide IndexedBlocks;
    hide Synced;
    CrashRuns.InitialInvariant(a);
    CrashRuns.UpdateIndexes(a, CrashRuns.START, g);
    var middle := CrashRuns.Updated(a, CrashRuns.START, g).value;
    CrashRuns.UpdateIndexes(a, middle, h);
    sys := CrashRuns.Updated(a, middle, h).value;
    BothUpdates(a, g, h, middle, sys);
  }

  /** So after a reorganisation between branches with conflicting transactions the query for their output panics. */
  lemma ReorganisationPanics(a: Archive, g: Hash, t: Tx, h: Hash, u: Tx, op: OutPoint, bound: nat) returns (sys: CrashRuns.System)
    requires a.Valid() && g in a.tree.headers && h in a.tree.headers && bound >= a.tree.Depth(h) && op.txid != NULL_HASH
    requires t in a.txs[g] && u in a.txs[h] && op in t.inputs && op in u.inputs && t.id != u.id
    ensures AfterBoth(a, g, h, sys)
    ensures SpendingInputOf(sys.Current(), sys.headers, op, bound) == Panic
  {
    sys := BothTipsIndexed(a, g, h);
    hide CrashRuns.Run;
    hide CrashRuns.Invariant;
    hide SpendingInputOf;
    TwoSpendersPanic(a, sys, g, t, h, u, op, bound);
  }

  lemma BranchesPanic(t: Tx, u: Tx, op: OutPoint) returns (sys: CrashRuns.System)
    requires op.txid != NULL_HASH && op in t.inputs && op in u.inputs && t.id != u.id
    ensures AfterBoth(BranchArchive([], [t], [u]), LEFT, RIGHT, sys)
    ensures SpendingInputOf(sys.Current(), sys.headers, op, 9999999999) == Panic
  {
    hide AfterBoth;
    hide SpendingInputOf;
    NamesDiffer();
    BranchesValid();
    sys := ReorganisationPanics(BranchArchive([], [t], [u]), LEFT, t, RIGHT, u, op, 9999999999);
  }

  // ---------------------------------------------------------------- a reply that lists a spent output

  /** A database holding the block `h` alone, next to a mempool tracking `t` alone. */
  ghost function LoneSides(a: Archive, h: Hash, t: Tx): Sides
    requires a.Valid() && h in a.tree.headers
  {
    var db := WriteBlock(a, NO_ROWS, h);
    Sides(db, Mempool.View(Mempool.IndexFor(map[t.id := t])), IndexedTxs(a, db), {t}, EMPTY)
  }

  lemma LoneServes(a: Archive, h: Hash, t: Tx, u: Tx)
    requires a.Valid() && h in a.tree.headers && a.txs[h] == [u]
    ensures Serves(LoneSides(a, h, t).db, LoneSides(a, h, t).indexed) && Serves(LoneSides(a, h, t).pool, {t})
    ensures LoneSides(a, h, t).indexed == {u}
  {
    var db := WriteBlock(a, NO_ROWS, h);
    EmptyFaithful(a);
    WriteBlockFaithful(a, NO_ROWS, h);
    DatabaseServes(a, db);
    MempoolServes(map[t.id := t]);
    hide Serves;
    hide Faithful;
    hide WriteBlock;
    hide Mempool.IndexFor;
    LoneValue(t);
    assert IndexedBlocks(a, db) == {h};
    assert u == a.txs[h][0] && IndexedTxs(a, db) == {u};
  }

  lemma LoneValue(t: Tx)
    ensures map[t.id := t].Values == {t}
  {
    var m := map[t.id := t];
    assert m[t.id] == t;
  }

  /**
   * When the database has indexed a spend whose output it has not, and the mempool tracks that output, the
   * stores are clean and the reply lists the output as unspent.
   */
  lemma ReplyListsSpent(a: Archive, h: Hash, t: Tx, u: Tx, scriptHash: Hash)
    requires a.Valid() && h in a.tree.headers && a.txs[h] == [u]
    requires t.inputs == [] && t.outputs == [scriptHash] && t.id != NULL_HASH
    requires u.inputs == [OutPoint(t.id, 0)] && u.outputs == []
    ensures LoneSides(a, h, t).Clean(scriptHash)
    ensures var w := LoneSides(a, h, t);
            && StatusOf(w.db, w.pool, w.headers, scriptHash, 9999999999, Limit(false, 0)).Ok?
            && w.Listed(scriptHash, OutPoint(t.id, 0)) && w.SpentIn(OutPoint(t.id, 0)) && !w.Unspent(scriptHash, OutPoint(t.id, 0))
  {
    var w, op := LoneSides(a, h, t), OutPoint(t.id, 0);
    LoneServes(a, h, t, u);
    hide Serves;
    hide WriteBlock;
    hide Mempool.IndexFor;
    assert w.headers == EMPTY && w.indexed == {u} && w.tracked == {t};
    LoneClean(w, t, u, scriptHash);
    UtxosListed(w, scriptHash);
  }

  lemma RootReplyListsSpent(t: Tx, u: Tx, scriptHash: Hash)
    requires t.inputs == [] && t.outputs == [scriptHash] && t.id != NULL_HASH
    requires u.inputs == [OutPoint(t.id, 0)] && u.outputs == []
    ensures BranchArchive([u], [], []).Valid()
    ensures var w := LoneSides(BranchArchive([u], [], []), ROOT, t);
            && StatusOf(w.db, w.pool, w.headers, scriptHash, 9999999999, Limit(false, 0)).Ok?
            && w.Listed(scriptHash, OutPoint(t.id, 0)) && w.SpentIn(OutPoint(t.id, 0))
  {
    NamesDiffer();
    BranchesValid();
    hide Name;
    hide Zeros;
    hide LoneSides;
    hide StatusOf;
    hide Sides.Listed;
    hide Sides.SpentIn;
    ReplyListsSpent(BranchArchive([u], [], []), ROOT, t, u, scriptHash);
  }

  lemma LoneClean(w: Sides, t: Tx, u: Tx, scriptHash: Hash)
    requires w.headers == EMPTY && w.indexed == {u} && w.tracked == {t} && Serves(w.db, {u}) && Serves(w.pool, {t})
    requires t.inputs == [] && t.outputs == [scriptHash] && t.id != NULL_HASH
    requires u.inputs == [OutPoint(t.id, 0)] && u.outputs == []
    ensures w.Clean(scriptHash)
    ensures w.PaidInPool(scriptHash, OutPoint(t.id, 0)) && !w.PaidIn(scriptHash, OutPoint(t.id, 0))
    ensures w.SpentIn(OutPoint(t.id, 0)) && !w.SpentInPool(OutPoint(t.id, 0))
  {
    hide Serves;
    forall q
      ensures w.CleanAt(scriptHash, q) && !w.PaidIn(scriptHash, q)
    {
    }
  }

  // ---------------------------------------------------------------- a pending spend hides the age of a script

  /** What the funding query of a store joins, as a set. */
  lemma JoinedSet(s: Contents, v: Headers, txs: set<Tx>, scriptHash: Hash, bound: nat) returns (paid: set<Txo>)
    requires Serves(s, txs)
    ensures Joined(s, v, txs, scriptHash, bound, paid)
  {
    FundingFound(s, v, txs, scriptHash, bound);
    hide FundingOutputs;
    paid := TxoSet(FundingOutputs(s, v, scriptHash, bound).value);
  }

  /**
   * In every system of a run and with any tracked mempool: as soon as a tracked transaction is reported as spending an
   * output of the script, the oldest entry has height 0, whatever else the status holds.
   */
  lemma PendingSpendHidesAge(a: Archive, sys: CrashRuns.System, items: map<Hash, Tx>, scriptHash: Hash, bound: nat, limit: Limit)
    requires a.Valid() && CrashRuns.Invariant(a, sys)
    requires var w := SidesOf(a, sys, items);
             && StatusOf(w.db, w.pool, w.headers, scriptHash, bound, limit).Ok?
             && StatusOf(w.db, w.pool, w.headers, scriptHash, bound, limit).value.mempoolSpending != []
    ensures var w := SidesOf(a, sys, items);
            var answer := Oldest.Answer(StatusOf(w.db, w.pool, w.headers, scriptHash, bound, limit).value);
            answer.Some? && answer.value.height == 0
  {
    var w := SidesOf(a, sys, items);
    assert Consistent(a, sys.Current());
    DatabaseServes(a, w.db);
    MempoolServes(items);
    hide Serves;
    hide StatusOf;
    hide Mempool.IndexFor;
    hide IndexedTxs;
    var paid := JoinedSet(w.db, w.headers, w.indexed, scriptHash, bound);
    var pooled := JoinedSet(w.pool, w.headers, w.tracked, scriptHash, 9999999999);
    hide Joined;
    StatusExact(w, scriptHash, bound, limit, paid, pooled);
    var spending := StatusOf(w.db, w.pool, w.headers, scriptHash, bound, limit).value.mempoolSpending;
    forall i | 0 <= i < |spending|
      ensures spending[i].height == 0
    {
      assert spending[i] in spending;
      MempoolHeight(a.tree, w.headers, items, spending[i].txid);
    }
    Oldest.PendingSpendIsAnswer(StatusOf(w.db, w.pool, w.headers, scriptHash, bound, limit).value);
  }

  // ---------------------------------------------------------------- an import resumed after another branch

  /** An import into `store` of files with all three blocks, while the node's best block is `tip`. */
  ghost predicate Imports(u: BulkPipeline.Setup, a: Archive, tip: Hash, store: Contents) {
    && u.Valid() && u.a == a && u.store == store && a.tree.headers.Keys == {ROOT, LEFT, RIGHT}
    && u.InFiles(ROOT) && u.InFiles(LEFT) && u.InFiles(RIGHT)
    && tip in a.tree.headers && u.current.entries == a.tree.PathTo(tip)
    && forall h :: u.OnChain(h) <==> h == ROOT || h == tip
  }

  lemma ListTo(t: Tree, h: Hash) returns (v: Headers)
    requires t.Valid() && h in t.headers
    ensures Synced(t, v) && v.entries == t.PathTo(h) && v.Tip() == h
  {
    hide Synced;
    hide Headers.Applied;
    hide Headers.ApplyAccepts;
    FromEmpty(t, h);
    t.PathShapeAll(h);
    v := EMPTY.Applied(t.PathTo(h), h);
  }

  lemma AllInFiles(a: Archive, v: Headers, store: Contents) returns (u: BulkPipeline.Setup)
    requires a.Valid() && a.tree == Branches() && Synced(a.tree, v) && Faithful(a, store)
    ensures u.Valid() && u.a == a && u.store == store && u.current == v
    ensures u.InFiles(ROOT) && u.InFiles(LEFT) && u.InFiles(RIGHT)
  {
    hide Faithful;
    hide Synced;
    var file := [a.BlockAt(ROOT), a.BlockAt(LEFT), a.BlockAt(RIGHT)];
    u := BulkPipeline.Setup(a, v, [file], store);
    assert a.tree.hasher(a.tree.headers[ROOT]) == ROOT && a.tree.hasher(a.tree.headers[LEFT]) == LEFT;
    assert a.tree.hasher(a.tree.headers[RIGHT]) == RIGHT;
    assert u.HashOf(u.files[0][0]) == ROOT && u.HashOf(u.files[0][1]) == LEFT && u.HashOf(u.files[0][2]) == RIGHT;
  }

  lemma OnChainOf(v: Headers, h: Hash, tip: Hash)
    requires Branches().Valid() && Synced(Branches(), v) && v.Tip() == tip && (tip == LEFT || tip == RIGHT)
    ensures v.Lookup(h).Some? <==> h == ROOT || h == tip
  {
    hide Name;
    hide Zeros;
    NamesDiffer();
    LookupIsSearch(Branches(), v, h);
    hide Synced;
    hide Headers.Lookup;
    if h in Branches().headers {
      BranchOnPath(h, tip);
    }
  }

  lemma ImportOf(a: Archive, tip: Hash, store: Contents) returns (u: BulkPipeline.Setup)
    requires a.Valid() && a.tree == Branches() && (tip == LEFT || tip == RIGHT) && Faithful(a, store)
    ensures Imports(u, a, tip, store)
  {
    hide Faithful;
    hide Name;
    hide Zeros;
    hide Synced;
    hide BulkPipeline.Setup.Valid;
    hide BulkPipeline.Setup.InFiles;
    hide Headers.Lookup;
    hide Tree.PathTo;
    hide Tree.Valid;
    var v := ListTo(a.tree, tip);
    u := AllInFiles(a, v, store);
    forall h
      ensures u.OnChain(h) <==> h == ROOT || h == tip
    {
      OnChainOf(v, h, tip);
    }
  }

  /** One indexer thread can bring the import to this state. */
  ghost predicate RunsTo(u: BulkPipeline.Setup, p: BulkPipeline.Pipeline) {
    exists events :: p == BulkPipeline.Run(u, BulkPipeline.Initial(u, 1), events)
  }

  /** `store` is left by a crash in an import of the right branch, after a crash in an import of the left one. */
  ghost predicate AfterTwoCrashes(a: Archive, store: Contents) {
    exists u1, p1, u2, p2 :: Imports(u1, a, LEFT, NO_ROWS) && RunsTo(u1, p1) && Imports(u2, a, RIGHT, p1.store) && RunsTo(u2, p2) && store == p2.store
  }

  /** An import run to its end. */
  lemma RunImport(u: BulkPipeline.Setup) returns (p: BulkPipeline.Pipeline)
    requires u.Valid()
    ensures BulkPipeline.Invariant(u, p) && BulkPipeline.Finished(u, p) && Faithful(u.a, p.store)
    ensures RunsTo(u, p)
  {
    var events := BulkProgress.CanFinish(u, 1, []);
    BulkPipeline.RunInvariant(u, 1, events);
    p := BulkPipeline.Run(u, BulkPipeline.Initial(u, 1), events);
  }

  lemma WantedChain(u: BulkPipeline.Setup, a: Archive, tip: Hash, store: Contents)
    requires a.Valid() && Imports(u, a, tip, store) && (tip == LEFT || tip == RIGHT)
    ensures u.Before() == IndexedBlocks(a, store) && u.Wanted() == {ROOT, tip} - IndexedBlocks(a, store)
  {
    hide Name;
    hide Zeros;
    hide BulkPipeline.Setup.Valid;
    hide BulkPipeline.Setup.InFiles;
    hide BulkPipeline.Setup.OnChain;
    hide IndexedBlocks;
    hide Archive.Valid;
    forall h
      ensures h in u.Wanted() <==> h in {ROOT, tip} - IndexedBlocks(a, store)
    {
    }
  }

  /** The chain to `tip` is indexed afterwards, and no other block newly so. */
  lemma ImportedChain(u: BulkPipeline.Setup, p: BulkPipeline.Pipeline, a: Archive, tip: Hash, store: Contents)
    requires a.Valid() && Imports(u, a, tip, store) && BulkPipeline.Invariant(u, p) && BulkPipeline.Finished(u, p)
    requires tip == LEFT || tip == RIGHT
    ensures u.Wanted() == {ROOT, tip} - IndexedBlocks(a, store)
    ensures IndexedBlocks(a, p.store) == IndexedBlocks(a, store) + {ROOT, tip}
  {
    hide Name;
    hide Zeros;
    hide BulkPipeline.Invariant;
    hide BulkPipeline.Finished;
    hide BulkPipeline.Setup.Valid;
    hide BulkPipeline.Setup.Before;
    hide BulkPipeline.Setup.Wanted;
    hide IndexedBlocks;
    WantedChain(u, a, tip, store);
    BulkPipeline.FinishedExactlyOnce(u, p);
  }

  /** The transaction occurs on the chain to `tip` in `tip` only. */
  lemma AloneInTip(u: BulkPipeline.Setup, tx: Tx, tip: Hash, store: Contents)
    requires Imports(u, BranchArchive([], [tx], [tx]), tip, store) && (tip == LEFT || tip == RIGHT)
    ensures u.a.TxidAt(tip, tx.id) && BulkFinish.AloneOnChain(u, tip, tx.id)
  {
    NamesDiffer();
    hide Name;
    hide Zeros;
    hide Branches;
    hide BulkPipeline.Setup.Valid;
    hide BulkPipeline.Setup.InFiles;
    hide BulkPipeline.Setup.OnChain;
    assert u.a.BlockAt(tip).txs[0].id == tx.id;
    assert u.a.BlockAt(ROOT).txs == [];
  }

  lemma OnceOnEachBranch(tx: Tx)
    ensures BranchArchive([], [tx], [tx]).Valid() && BranchArchive([], [tx], [tx]).NoRepeats()
  {
    var a := BranchArchive([], [tx], [tx]);
    NamesDiffer();
    BranchesValid();
    hide Name;
    hide Zeros;
    forall g, h, x: Hash | g in a.tree.headers && h in a.tree.headers
      ensures a.NoRepeatAt(g, h, x)
    {
      BranchOnPath(g, h);
      hide Branches;
      assert a.txs[ROOT] == [];
    }
  }

  /** With the left chain indexed, the final `L` of an import on it is the left block. */
  lemma LeftIsLast(u: BulkPipeline.Setup, p: BulkPipeline.Pipeline)
    requires u.Valid() && u.a.tree == Branches() && BulkPipeline.Invariant(u, p) && BulkPipeline.Finished(u, p)
    requires u.current.entries == u.a.tree.PathTo(LEFT)
    requires ROOT in IndexedBlocks(u.a, p.store) && LEFT in IndexedBlocks(u.a, p.store)
    ensures BulkFinish.FinalStore(u, p) == Ok(p.store[LAST_KEY := LEFT])
  {
    hide Name;
    hide Zeros;
    hide BulkPipeline.Invariant;
    hide BulkPipeline.Finished;
    hide BulkPipeline.Setup.Wanted;
    hide BulkPipeline.Setup.Before;
    hide IndexedBlocks;
    hide Faithful;
    BranchPaths();
    BulkPipeline.FinishedExactlyOnce(u, p);
    hide Branches;
    var es := u.current.entries;
    hide BulkIndex.LeadingIndexed;
    hide Tree.PathTo;
    assert |es| == 2 && es[0].hash == ROOT && es[1].hash == LEFT;
    LeadingBoth(es, p.claimed);
  }

  lemma LeadingBoth(es: seq<HeaderEntry>, indexed: set<Hash>)
    requires |es| == 2 && es[0].hash in indexed && es[1].hash in indexed
    ensures BulkIndex.LeadingIndexed(es, indexed) == 2
  {
  }

  lemma Misnamed(a: Archive, s: Contents, v: Headers, tx: Tx)
    requires a == BranchArchive([], [tx], [tx]) && a.Valid() && TxKey(tx.id) in s && s[TxKey(tx.id)] == RIGHT
    requires v.Lookup(RIGHT).None?
    ensures LastOf(s[LAST_KEY := LEFT]) == LEFT && s[LAST_KEY := LEFT][TxKey(tx.id)] == RIGHT
    ensures !Named(a, s[LAST_KEY := LEFT], LEFT)
    ensures TxHeight(s[LAST_KEY := LEFT], v, tx.id) == 0 && a.tree.heights[LEFT] == 1
  {
    NamesDiffer();
    hide Name;
    hide Zeros;
    assert |TxKey(tx.id)| != |LAST_KEY|;
    assert a.BlockAt(LEFT).txs[0].id == tx.id;
    assert !NamedAt(a, s[LAST_KEY := LEFT], LEFT, LEFT, tx.id);
  }

  lemma ThirdImport(
    tx: Tx, u1: BulkPipeline.Setup, p1: BulkPipeline.Pipeline, u2: BulkPipeline.Setup, p2: BulkPipeline.Pipeline,
    u3: BulkPipeline.Setup, p3: BulkPipeline.Pipeline)
    requires BranchArchive([], [tx], [tx]).Valid() && IndexedBlocks(BranchArchive([], [tx], [tx]), NO_ROWS) == {}
    requires Imports(u1, BranchArchive([], [tx], [tx]), LEFT, NO_ROWS) && BulkPipeline.Invariant(u1, p1) && BulkPipeline.Finished(u1, p1)
    requires Imports(u2, BranchArchive([], [tx], [tx]), RIGHT, p1.store) && BulkPipeline.Invariant(u2, p2) && BulkPipeline.Finished(u2, p2)
    requires Imports(u3, BranchArchive([], [tx], [tx]), LEFT, p2.store) && BulkPipeline.Invariant(u3, p3) && BulkPipeline.Finished(u3, p3)
    ensures TxKey(tx.id) in p3.store && p3.store[TxKey(tx.id)] == RIGHT
    ensures ROOT in IndexedBlocks(u3.a, p3.store) && LEFT in IndexedBlocks(u3.a, p3.store)
    ensures u3.current.Lookup(RIGHT).None?
  {
    NamesDiffer();
    hide BranchArchive;
    hide BulkPipeline.Invariant;
    hide BulkPipeline.Setup.Valid;
    hide BulkPipeline.Setup.Wanted;
    hide BulkPipeline.Finished;
    hide IndexedBlocks;
    var a := BranchArchive([], [tx], [tx]);
    ImportedChain(u1, p1, a, LEFT, NO_ROWS);
    ImportedChain(u2, p2, a, RIGHT, p1.store);
    ImportedChain(u3, p3, a, LEFT, p2.store);
    AloneInTip(u1, tx, LEFT, NO_ROWS);
    AloneInTip(u2, tx, RIGHT, p1.store);
    AloneInTip(u3, tx, LEFT, p2.store);
    BulkFinish.OtherChainMisnames(u1, p1, u2, p2, u3, p3, RIGHT, LEFT, tx.id);
  }

  lemma ThreeImports(a: Archive)
    returns (u1: BulkPipeline.Setup, p1: BulkPipeline.Pipeline, u2: BulkPipeline.Setup, p2: BulkPipeline.Pipeline,
             u3: BulkPipeline.Setup, p3: BulkPipeline.Pipeline)
    requires a.Valid() && a.tree == Branches() && Faithful(a, NO_ROWS)
    ensures Imports(u1, a, LEFT, NO_ROWS) && BulkPipeline.Invariant(u1, p1) && BulkPipeline.Finished(u1, p1)
    ensures Imports(u2, a, RIGHT, p1.store) && BulkPipeline.Invariant(u2, p2) && BulkPipeline.Finished(u2, p2)
    ensures Imports(u3, a, LEFT, p2.store) && BulkPipeline.Invariant(u3, p3) && BulkPipeline.Finished(u3, p3)
    ensures AfterTwoCrashes(a, p2.store) && RunsTo(u3, p3)
  {
    hide Branches;
    hide Archive.Valid;
    hide RunsTo;
    hide Faithful;
    hide BulkPipeline.Invariant;
    hide BulkPipeline.Finished;
    hide BulkPipeline.Setup.Valid;
    u1 := ImportOf(a, LEFT, NO_ROWS);
    p1 := RunImport(u1);
    u2 := ImportOf(a, RIGHT, p1.store);
    p2 := RunImport(u2);
    u3 := ImportOf(a, LEFT, p2.store);
    p3 := RunImport(u3);
  }

  /**
   * Import the left branch and crash, import the right branch and crash, import with the left branch again:
   * the finished database has the left block as `L` but names the right one for the transaction of both.
   */
  lemma ResumedImportMisnames(tx: Tx) returns (u: BulkPipeline.Setup, p: BulkPipeline.Pipeline)
    ensures u.Valid() && u.a == BranchArchive([], [tx], [tx]) && u.a.NoRepeats()
    ensures AfterTwoCrashes(u.a, u.store) && Imports(u, u.a, LEFT, u.store) && RunsTo(u, p)
    ensures BulkPipeline.Invariant(u, p) && BulkPipeline.Finished(u, p) && BulkFinish.FinalStore(u, p).Ok?
    ensures var s := BulkFinish.FinalStore(u, p).value;
            && LastOf(s) == LEFT && TxKey(tx.id) in s && s[TxKey(tx.id)] == RIGHT && !Named(u.a, s, LEFT)
            && TxHeight(s, u.current, tx.id) == 0 && u.a.tree.heights[LEFT] == 1
  {
    var a := BranchArchive([], [tx], [tx]);
    OnceOnEachBranch(tx);
    EmptyFaithful(a);
    var u1, p1, u2, p2;
    u1, p1, u2, p2, u, p := ThreeImports(a);
    hide Name;
    hide Zeros;
    hide AfterTwoCrashes;
    hide RunsTo;
    hide Faithful;
    hide BulkPipeline.Invariant;
    hide BulkPipeline.Setup.Valid;
    hide Archive.NoRepeats;
    hide Named;
    hide TxHeight;
    ThirdImport(tx, u1, p1, u2, p2, u, p);
    LeftIsLast(u, p);
    Misnamed(a, p.store, u.current, tx);
  }
}
