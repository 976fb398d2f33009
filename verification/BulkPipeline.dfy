/** The bulk import as a protocol: a reader, any number of indexer threads and a writer, in every interleaving. */
module BulkPipeline {
  import opened ByteKeys
  import opened HeaderChain
  import opened HeaderSync
  import opened Rows
  import opened Store
  import opened Indexing
  import opened BlockStore
  import opened BulkIndex

  /** What an import starts from: the node's blocks, its current chain, the parsed files and the database. */
  datatype Setup = Setup(a: Archive, current: Headers, files: seq<seq<Block>>, store: Contents) {

    ghost predicate Valid() {
      && a.Valid() && Synced(a.tree, current) && Faithful(a, store)
      && forall f :: 0 <= f < |files| ==> Genuine(a, files[f])
    }

    function HashOf(b: Block): Hash {
      a.tree.hasher(b.header)
    }

    predicate OnChain(h: Hash) {
      current.Lookup(h).Some?
    }

    ghost predicate InFiles(h: Hash) {
      exists f, i :: 0 <= f < |files| && 0 <= i < |files[f]| && HashOf(files[f][i]) == h
    }

    /** The blocks that already have a `B` row. */
    ghost function Before(): set<Hash> {
      IndexedBlocks(a, store)
    }

    /** The blocks this import has to index. */
    ghost function Wanted(): set<Hash> {
      set h | h in a.tree.headers && h !in Before() && OnChain(h) && InFiles(h)
    }
  }

  datatype Batch = Batch(hashes: seq<Hash>, rows: seq<Row>)

  const NO_BATCH := Batch([], [])

  /** An indexer thread: waiting for a file, or going through one with the rows collected so far. */
  datatype Worker = Idle | Busy(todo: seq<Block>, batch: Batch)

  /** `claimed` is the shared set behind the mutex; `pending` is a batch handed to the writer; `written` logs whose rows it has written. */
  datatype Pipeline = Pipeline(
    next: nat, claimed: set<Hash>, workers: seq<Worker>, pending: Option<Batch>, store: Contents, written: seq<Hash>
  )

  datatype Event =
    | Take(worker: nat)                     // the reader hands over the next file
    | Index(worker: nat)                    // one block of the file, under the lock
    | Send(worker: nat, sorted: seq<Row>)   // the sorted rows go to the writer
    | Write                                 // the writer stores one batch

  ghost function Initial(u: Setup, threads: nat): Pipeline {
    Pipeline(0, u.Before(), seq(threads, _ => Idle), None, u.store, [])
  }

  /** One atomic step; a step that is not enabled leaves the pipeline alone. */
  ghost function Step(u: Setup, p: Pipeline, e: Event): Pipeline {
    match e
    case Take(w) =>
      if w < |p.workers| && p.workers[w].Idle? && p.next < |u.files|
      then p.(next := p.next + 1, workers := p.workers[w := Busy(u.files[p.next], NO_BATCH)])
      else p
    case Index(w) =>
      if w < |p.workers| && p.workers[w].Busy? && p.workers[w].todo != [] then IndexNext(u, p, w) else p
    case Send(w, sorted) =>
      if w < |p.workers| && p.workers[w].Busy? && p.workers[w].todo == [] && p.pending.None? && IsSortOf(sorted, p.workers[w].batch.rows)
      then p.(workers := p.workers[w := Idle], pending := Some(Batch(p.workers[w].batch.hashes, sorted)))
      else p
    case Write =>
      if p.pending.Some?
      then p.(pending := None, store := PutAll(p.store, p.pending.value.rows), written := p.written + p.pending.value.hashes)
      else p
  }

  /** The next block of a thread: claimed and indexed if it is on the current chain and nobody has it yet. */
  function IndexNext(u: Setup, p: Pipeline, w: nat): Pipeline
    requires w < |p.workers| && p.workers[w].Busy? && p.workers[w].todo != []
  {
    var Busy(todo, batch) := p.workers[w];
    var h := u.HashOf(todo[0]);
    if Fresh(u.a.tree.hasher, u.current, p.claimed, todo[0])
    then p.(claimed := p.claimed + {h},
            workers := p.workers[w := Busy(todo[1..], Batch(batch.hashes + [h], batch.rows + IndexBlock(u.a.tree.hasher, todo[0])))])
    else p.(workers := p.workers[w := Busy(todo[1..], batch)])
  }

  ghost function Run(u: Setup, p: Pipeline, events: seq<Event>): Pipeline {
    if events == [] then p else Step(u, Run(u, p, events[..|events| - 1]), events[|events| - 1])
  }

  /** The reader is done, every thread is waiting and the writer has nothing left. */
  predicate Finished(u: Setup, p: Pipeline) {
    p.next == |u.files| && p.pending.None? && forall w :: 0 <= w < |p.workers| ==> p.workers[w].Idle?
  }

  // ---------------------------------------------------------------- every claimed block is held once

  function ClaimedBy(w: Worker): seq<Hash> {
    if w.Busy? then w.batch.hashes else []
  }

  function Count(hs: seq<Hash>, h: Hash): nat {
    multiset(hs)[h]
  }

  function HeldByWorkers(ws: seq<Worker>, h: Hash): nat {
    if ws == [] then 0 else HeldByWorkers(ws[..|ws| - 1], h) + Count(ClaimedBy(ws[|ws| - 1]), h)
  }

  function PendingHashes(p: Pipeline): seq<Hash> {
    if p.pending.Some? then p.pending.value.hashes else []
  }

  /** How many times the block is with a thread, with the writer, or written. */
  function Held(p: Pipeline, h: Hash): nat {
    Count(p.written, h) + Count(PendingHashes(p), h) + HeldByWorkers(p.workers, h)
  }

  lemma {:induction false} WorkerReplaced(ws: seq<Worker>, i: nat, w: Worker, h: Hash)
    requires i < |ws|
    ensures HeldByWorkers(ws[i := w], h) + Count(ClaimedBy(ws[i]), h) == HeldByWorkers(ws, h) + Count(ClaimedBy(w), h)
  {
    var n := |ws| - 1;
    if i < n {
      WorkerReplaced(ws[..n], i, w, h);
      assert ws[i := w][..n] == ws[..n][i := w];
    } else {
      assert ws[i := w][..n] == ws[..n];
    }
  }

  lemma {:induction false} IdleHoldNothing(ws: seq<Worker>, h: Hash)
    requires forall i :: 0 <= i < |ws| ==> ws[i].Idle?
    ensures HeldByWorkers(ws, h) == 0
  {
    if ws != [] {
      IdleHoldNothing(ws[..|ws| - 1], h);
    }
  }

  /** Conservation: a block claimed in this import is held once, any other block not at all. */
  ghost predicate Conserved(u: Setup, p: Pipeline) {
    && u.Before() <= p.claimed
    && forall h {:trigger HeldOnce(u, p, h)} :: HeldOnce(u, p, h)
  }

  ghost predicate HeldOnce(u: Setup, p: Pipeline, h: Hash) {
    Held(p, h) == if h in p.claimed && h !in u.Before() then 1 else 0
  }

  lemma CountPush(hs: seq<Hash>, g: Hash, h: Hash)
    ensures Count(hs + [g], h) == Count(hs, h) + (if g == h then 1 else 0)
  {
  }

  lemma IndexConserves(u: Setup, p: Pipeline, w: nat, h: Hash)
    requires w < |p.workers| && p.workers[w].Busy? && p.workers[w].todo != []
    requires u.Before() <= p.claimed && HeldOnce(u, p, h)
    ensures HeldOnce(u, IndexNext(u, p, w), h)
  {
    hide Setup.Before;
    var Busy(todo, batch) := p.workers[w];
    WorkerReplaced(p.workers, w, IndexNext(u, p, w).workers[w], h);
    CountPush(batch.hashes, u.HashOf(todo[0]), h);
    hide Count;
    hide HeldByWorkers;
  }

  lemma StepConservesOne(u: Setup, p: Pipeline, e: Event, h: Hash)
    requires u.Before() <= p.claimed && HeldOnce(u, p, h)
    ensures HeldOnce(u, Step(u, p, e), h)
  {
    hide Setup.Before;
    hide HeldByWorkers;
    hide IndexNext;
    hide IsSortOf;
    match e
    case Take(w) =>
      if w < |p.workers| && p.next < |u.files| {
        WorkerReplaced(p.workers, w, Busy(u.files[p.next], NO_BATCH), h);
      }
    case Index(w) =>
      if w < |p.workers| && p.workers[w].Busy? && p.workers[w].todo != [] {
        IndexConserves(u, p, w, h);
      }
    case Send(w, sorted) =>
      if w < |p.workers| {
        WorkerReplaced(p.workers, w, Idle, h);
      }
    case Write =>
  }

  lemma StepConserves(u: Setup, p: Pipeline, e: Event)
    requires Conserved(u, p)
    ensures Conserved(u, Step(u, p, e))
  {
    forall h
      ensures HeldOnce(u, Step(u, p, e), h)
    {
      assert HeldOnce(u, p, h);
      StepConservesOne(u, p, e, h);
    }
  }

  // ---------------------------------------------------------------- rows, files and coverage

  ghost predicate BatchOk(u: Setup, b: Batch)
    requires u.a.Valid()
  {
    RowsOf(u.a, b.rows, AsSet(b.hashes))
  }

  /** A thread's remaining blocks come from the files, and its rows are those of the blocks it claimed. */
  ghost predicate WorkerOk(u: Setup, w: Worker)
    requires u.a.Valid()
  {
    w.Busy? ==>
      && BatchOk(u, w.batch) && Genuine(u.a, w.todo)
      && forall i :: 0 <= i < |w.todo| ==> u.InFiles(u.HashOf(w.todo[i]))
  }

  ghost predicate Sound(u: Setup, p: Pipeline)
    requires u.a.Valid()
  {
    && p.next <= |u.files|
    && (forall w :: 0 <= w < |p.workers| ==> WorkerOk(u, p.workers[w]))
    && (p.pending.Some? ==> BatchOk(u, p.pending.value))
    && (forall h :: h in p.claimed && h !in u.Before() ==> u.OnChain(h) && u.InFiles(h))
  }

  ghost predicate InTodo(u: Setup, p: Pipeline, h: Hash) {
    exists w, i :: 0 <= w < |p.workers| && p.workers[w].Busy? && 0 <= i < |p.workers[w].todo| && u.HashOf(p.workers[w].todo[i]) == h
  }

  /** No handed-out block of the current chain is lost: it is claimed or still ahead of some thread. */
  ghost predicate Covered(u: Setup, p: Pipeline)
    requires p.next <= |u.files|
  {
    forall f, i {:trigger CoveredAt(u, p, f, i)} :: 0 <= f < p.next && 0 <= i < |u.files[f]| ==> CoveredAt(u, p, f, i)
  }

  ghost predicate CoveredAt(u: Setup, p: Pipeline, f: nat, i: nat)
    requires f < |u.files| && i < |u.files[f]|
  {
    var h := u.HashOf(u.files[f][i]);
    u.OnChain(h) ==> h in p.claimed || InTodo(u, p, h)
  }

  lemma TakeSound(u: Setup, p: Pipeline, w: nat)
    requires u.Valid() && Sound(u, p)
    ensures Sound(u, Step(u, p, Take(w)))
  {
    hide Faithful;
    if w < |p.workers| && p.workers[w].Idle? && p.next < |u.files| {
      var file := u.files[p.next];
      forall i | 0 <= i < |file|
        ensures u.InFiles(u.HashOf(file[i]))
      {
        assert u.HashOf(u.files[p.next][i]) == u.HashOf(file[i]);
      }
      EmptyBatchOk(u);
      assert WorkerOk(u, Busy(file, NO_BATCH));
    }
  }

  lemma EmptyBatchOk(u: Setup)
    requires u.a.Valid()
    ensures BatchOk(u, NO_BATCH)
  {
    assert AsSet(NO_BATCH.hashes) == {};
  }

  lemma IndexedWorkerOk(u: Setup, p: Pipeline, w: nat)
    requires u.Valid() && w < |p.workers| && p.workers[w].Busy? && p.workers[w].todo != [] && WorkerOk(u, p.workers[w])
    ensures WorkerOk(u, IndexNext(u, p, w).workers[w])
    ensures Fresh(u.a.tree.hasher, u.current, p.claimed, p.workers[w].todo[0]) ==>
              u.HashOf(p.workers[w].todo[0]) in u.a.tree.headers && u.InFiles(u.HashOf(p.workers[w].todo[0]))
  {
    hide Faithful;
    var Busy(todo, batch) := p.workers[w];
    var h := u.HashOf(todo[0]);
    assert forall i :: 0 <= i < |todo[1..]| ==> todo[1..][i] == todo[i + 1];
    if Fresh(u.a.tree.hasher, u.current, p.claimed, todo[0]) {
      LookupIsSearch(u.a.tree, u.current, h);
      RowsOfPush(u.a, batch.rows, AsSet(batch.hashes), h);
      assert AsSet(batch.hashes + [h]) == AsSet(batch.hashes) + {h};
    }
  }

  lemma IndexSound(u: Setup, p: Pipeline, w: nat)
    requires u.Valid() && Sound(u, p)
    ensures Sound(u, Step(u, p, Index(w)))
  {
    if w < |p.workers| && p.workers[w].Busy? && p.workers[w].todo != [] {
      IndexedWorkerOk(u, p, w);
      hide WorkerOk;
      hide Setup.InFiles;
      hide Faithful;
    }
  }

  lemma SendSound(u: Setup, p: Pipeline, w: nat, sorted: seq<Row>)
    requires u.Valid() && Sound(u, p)
    ensures Sound(u, Step(u, p, Send(w, sorted)))
  {
    hide Faithful;
    if w < |p.workers| && p.workers[w].Busy? && p.workers[w].todo == [] && p.pending.None? && IsSortOf(sorted, p.workers[w].batch.rows) {
      assert WorkerOk(u, p.workers[w]);
      SortedRowsOf(u.a, sorted, p.workers[w].batch.rows, AsSet(p.workers[w].batch.hashes));
    }
  }

  lemma StepSound(u: Setup, p: Pipeline, e: Event)
    requires u.Valid() && Sound(u, p)
    ensures Sound(u, Step(u, p, e))
  {
    match e
    case Take(w) => TakeSound(u, p, w);
    case Index(w) => IndexSound(u, p, w);
    case Send(w, sorted) => SendSound(u, p, w, sorted);
    case Write =>
  }

  /** A step keeps every block that was claimed or ahead of a thread so. */
  lemma StepKeepsAhead(u: Setup, p: Pipeline, e: Event, h: Hash)
    requires u.OnChain(h) && (h in p.claimed || InTodo(u, p, h))
    ensures h in Step(u, p, e).claimed || InTodo(u, Step(u, p, e), h)
  {
    var q := Step(u, p, e);
    if h !in p.claimed {
      var v, i :| 0 <= v < |p.workers| && p.workers[v].Busy? && 0 <= i < |p.workers[v].todo| && u.HashOf(p.workers[v].todo[i]) == h;
      if e.Index? && e.worker == v {
        if i > 0 {
          assert q.workers[v].todo[i - 1] == p.workers[v].todo[i];
        }
      } else {
        assert q.workers[v] == p.workers[v];
      }
    }
  }

  lemma StepCovers(u: Setup, p: Pipeline, e: Event)
    requires u.a.Valid() && Sound(u, p) && Covered(u, p) && Step(u, p, e).next <= |u.files|
    ensures Covered(u, Step(u, p, e))
  {
    var q := Step(u, p, e);
    forall f, i | 0 <= f < q.next && 0 <= i < |u.files[f]|
      ensures CoveredAt(u, q, f, i)
    {
      var h := u.HashOf(u.files[f][i]);
      if u.OnChain(h) {
        if f < p.next {
          assert CoveredAt(u, p, f, i);
          StepKeepsAhead(u, p, e, h);
        } else {
          assert q.workers[e.worker].todo[i] == u.files[f][i];
        }
      }
    }
  }

  // ---------------------------------------------------------------- the store

  /** The value of a key: from a written block if one has the key, otherwise what was there before. */
  ghost predicate StoredAt(u: Setup, p: Pipeline, k: Bytes)
    requires u.a.Valid() && AsSet(p.written) <= u.a.tree.headers.Keys
  {
    && (k in p.store <==> k in u.store || SomeBlockHas(u.a, AsSet(p.written), k))
    && (SomeBlockHas(u.a, AsSet(p.written), k) ==> k in p.store && exists h :: h in p.written && Row(k, p.store[k]) in u.a.RowsAt(h))
    && (!SomeBlockHas(u.a, AsSet(p.written), k) && k in u.store ==> k in p.store && p.store[k] == u.store[k])
  }

  ghost predicate StoreOk(u: Setup, p: Pipeline)
    requires u.a.Valid()
  {
    && AsSet(p.written) <= u.a.tree.headers.Keys
    && (forall k {:trigger StoredAt(u, p, k)} :: StoredAt(u, p, k))
    && Faithful(u.a, p.store) && IndexedBlocks(u.a, p.store) == u.Before() + AsSet(p.written)
  }

  lemma WriteStoredAt(u: Setup, p: Pipeline, k: Bytes)
    requires u.Valid() && p.pending.Some? && BatchOk(u, p.pending.value)
    requires AsSet(p.written) <= u.a.tree.headers.Keys && StoredAt(u, p, k)
    ensures AsSet(Step(u, p, Write).written) == AsSet(p.written) + AsSet(p.pending.value.hashes)
    ensures StoredAt(u, Step(u, p, Write), k)
  {
    hide Faithful;
    var b := p.pending.value;
    var q := Step(u, p, Write);
    assert AsSet(q.written) == AsSet(p.written) + AsSet(b.hashes);
    SomeBlockUnion(u.a, AsSet(p.written), AsSet(b.hashes), k);
    PutBlocksAt(u.a, p.store, b.rows, AsSet(b.hashes), k);
    hide SomeBlockHas;
    hide PutAll;
    if SomeBlockHas(u.a, AsSet(b.hashes), k) {
      var h :| h in AsSet(b.hashes) && Row(k, PutAll(p.store, b.rows)[k]) in u.a.RowsAt(h);
      assert h in q.written;
    } else if SomeBlockHas(u.a, AsSet(p.written), k) {
      var h :| h in p.written && Row(k, p.store[k]) in u.a.RowsAt(h);
      assert h in q.written;
    }
  }

  lemma WriteStoreOk(u: Setup, p: Pipeline)
    requires u.Valid() && StoreOk(u, p) && p.pending.Some? && BatchOk(u, p.pending.value)
    ensures StoreOk(u, Step(u, p, Write))
  {
    var b := p.pending.value;
    var q := Step(u, p, Write);
    assert AsSet(q.written) == AsSet(p.written) + AsSet(b.hashes);
    forall k
      ensures StoredAt(u, q, k)
    {
      assert StoredAt(u, p, k);
      WriteStoredAt(u, p, k);
    }
    PutBlocksFaithful(u.a, p.store, b.rows, AsSet(b.hashes));
  }

  lemma StepStoreOk(u: Setup, p: Pipeline, e: Event)
    requires u.Valid() && StoreOk(u, p) && Sound(u, p)
    ensures StoreOk(u, Step(u, p, e))
  {
    if e.Write? && p.pending.Some? {
      WriteStoreOk(u, p);
    } else {
      SameStoreOk(u, p, Step(u, p, e));
    }
  }

  lemma SameStoreOk(u: Setup, p: Pipeline, q: Pipeline)
    requires u.Valid() && StoreOk(u, p) && q.store == p.store && q.written == p.written
    ensures StoreOk(u, q)
  {
    hide Faithful;
    forall k
      ensures StoredAt(u, q, k)
    {
      assert StoredAt(u, p, k);
    }
  }

  // ---------------------------------------------------------------- whole runs

  ghost predicate Invariant(u: Setup, p: Pipeline)
    requires u.a.Valid()
  {
    Conserved(u, p) && Sound(u, p) && Covered(u, p) && StoreOk(u, p)
  }

  lemma InitialInvariant(u: Setup, threads: nat)
    requires u.Valid()
    ensures Invariant(u, Initial(u, threads))
  {
    var p := Initial(u, threads);
    forall h
      ensures HeldOnce(u, p, h)
    {
      IdleHoldNothing(p.workers, h);
    }
    assert AsSet(p.written) == {};
    hide Faithful;
    forall k
      ensures StoredAt(u, p, k)
    {
    }
  }

  lemma StepInvariant(u: Setup, p: Pipeline, e: Event)
    requires u.Valid() && Invariant(u, p)
    ensures Invariant(u, Step(u, p, e))
  {
    StepConserves(u, p, e);
    StepSound(u, p, e);
    StepCovers(u, p, e);
    StepStoreOk(u, p, e);
  }

  /** Every interleaving keeps the invariant. */
  lemma {:induction false} RunInvariant(u: Setup, threads: nat, events: seq<Event>)
    requires u.Valid()
    ensures Invariant(u, Run(u, Initial(u, threads), events))
  {
    if events == [] {
      InitialInvariant(u, threads);
    } else {
      var n := |events| - 1;
      RunInvariant(u, threads, events[..n]);
      StepInvariant(u, Run(u, Initial(u, threads), events[..n]), events[n]);
    }
  }

  /** When the import has finished, exactly the wanted blocks have been written, each once. */
  lemma FinishedExactlyOnce(u: Setup, p: Pipeline)
    requires u.Valid() && Invariant(u, p) && Finished(u, p)
    ensures forall h :: Count(p.written, h) == if h in u.Wanted() then 1 else 0
    ensures AsSet(p.written) == u.Wanted() && p.claimed == u.Before() + u.Wanted()
    ensures IndexedBlocks(u.a, p.store) == p.claimed
  {
    ClaimedIsWanted(u, p);
    hide Setup.Wanted;
    hide Setup.Before;
    hide Faithful;
    forall h
      ensures Count(p.written, h) == if h in u.Wanted() then 1 else 0
      ensures h in p.written <==> h in u.Wanted()
    {
      assert HeldOnce(u, p, h);
      IdleHoldNothing(p.workers, h);
      assert h in p.written <==> h in multiset(p.written);
    }
    assert AsSet(p.written) == u.Wanted();
  }

  lemma ClaimedIsWanted(u: Setup, p: Pipeline)
    requires u.Valid() && Invariant(u, p) && Finished(u, p)
    ensures p.claimed - u.Before() == u.Wanted()
  {
    hide Faithful;
    forall h | h in p.claimed - u.Before()
      ensures h in u.Wanted()
    {
      LookupIsSearch(u.a.tree, u.current, h);
    }
    forall h | h in u.Wanted()
      ensures h in p.claimed
    {
      var f, i :| 0 <= f < |u.files| && 0 <= i < |u.files[f]| && u.HashOf(u.files[f][i]) == h;
      assert CoveredAt(u, p, f, i);
      assert !InTodo(u, p, h);
    }
  }

  /** The final keys are those of the wanted blocks and the prior ones. */
  lemma FinishedKeys(u: Setup, p: Pipeline, k: Bytes)
    requires u.Valid() && Invariant(u, p) && Finished(u, p)
    ensures k in p.store <==> k in u.store || SomeBlockHas(u.a, u.Wanted(), k)
  {
    FinishedExactlyOnce(u, p);
    assert StoredAt(u, p, k);
  }

  /** No transaction id occurs in two of these blocks. */
  ghost predicate TxidsApart(a: Archive, hs: set<Hash>)
    requires a.Valid() && hs <= a.tree.headers.Keys
  {
    forall g, h, x: Hash :: g in hs && h in hs && a.TxidAt(g, x) && a.TxidAt(h, x) ==> g == h
  }

  /** Then rows of these blocks with the same key carry the same value. */
  lemma SameKeySameValue(a: Archive, hs: set<Hash>, g: Hash, h: Hash, k: Bytes, v: Bytes, w: Bytes)
    requires a.Valid() && hs <= a.tree.headers.Keys && TxidsApart(a, hs) && g in hs && h in hs
    requires Row(k, v) in a.RowsAt(g) && Row(k, w) in a.RowsAt(h)
    ensures v == w
  {
    RowKinds(a, g, k, v);
    RowKinds(a, h, k, w);
  }

  lemma RowKinds(a: Archive, h: Hash, k: Bytes, v: Bytes)
    requires a.Valid() && h in a.tree.headers && Row(k, v) in a.RowsAt(h)
    ensures k != []
    ensures k[0] != TAG_TX && k[0] != TAG_BLOCK ==> v == []
    ensures k[0] == TAG_BLOCK ==> k == BlockKey(h) && v == EncodeHeader(a.tree.headers[h])
    ensures forall x: Hash :: k == TxKey(x) ==> a.TxidAt(h, x) && v == h
    ensures k[0] == TAG_TX ==> exists x: Hash :: k == TxKey(x)
    ensures forall g: Hash :: k == BlockKey(g) ==> g == h
  {
    var b := a.BlockAt(h);
    BlockRows(a.tree.hasher, b, Row(k, v));
    if Row(k, v) != BlockRow(h, b.header) {
      TransactionsRows(b.txs, h, Row(k, v));
      var j :| 0 <= j < |b.txs| && Row(k, v) in IndexTransaction(b.txs[j], h);
      TransactionRows(b.txs[j], h, Row(k, v));
      KeyTags(b.txs[j], k);
    }
  }

  /** Two finished imports of the same files end with the same database, whatever the interleaving and the number of threads. */
  lemma InterleavingsAgree(u: Setup, m: nat, es: seq<Event>, n: nat, fs: seq<Event>)
    requires u.Valid() && TxidsApart(u.a, u.Wanted())
    requires Finished(u, Run(u, Initial(u, m), es)) && Finished(u, Run(u, Initial(u, n), fs))
    ensures Run(u, Initial(u, m), es).store == Run(u, Initial(u, n), fs).store
  {
    RunInvariant(u, m, es);
    RunInvariant(u, n, fs);
    FinishedAgree(u, Run(u, Initial(u, m), es), Run(u, Initial(u, n), fs));
  }

  lemma FinishedAgree(u: Setup, p: Pipeline, q: Pipeline)
    requires u.Valid() && Invariant(u, p) && Finished(u, p) && Invariant(u, q) && Finished(u, q)
    requires TxidsApart(u.a, u.Wanted())
    ensures p.store == q.store
  {
    FinishedExactlyOnce(u, p);
    FinishedExactlyOnce(u, q);
    hide Faithful;
    forall k
      ensures k in p.store <==> k in q.store
      ensures k in p.store ==> p.store[k] == q.store[k]
    {
      AgreeAt(u, p, q, k);
    }
  }

  lemma AgreeAt(u: Setup, p: Pipeline, q: Pipeline, k: Bytes)
    requires u.Valid() && TxidsApart(u.a, u.Wanted())
    requires StoreOk(u, p) && AsSet(p.written) == u.Wanted()
    requires StoreOk(u, q) && AsSet(q.written) == u.Wanted()
    ensures k in p.store <==> k in q.store
    ensures k in p.store ==> p.store[k] == q.store[k]
  {
    hide Faithful;
    assert StoredAt(u, p, k) && StoredAt(u, q, k);
    if SomeBlockHas(u.a, u.Wanted(), k) {
      var g :| g in p.written && Row(k, p.store[k]) in u.a.RowsAt(g);
      var h :| h in q.written && Row(k, q.store[k]) in u.a.RowsAt(h);
      SameKeySameValue(u.a, u.Wanted(), g, h, k, p.store[k], q.store[k]);
    }
  }
}
