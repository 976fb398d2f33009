/** `Index::update` as it runs: the fetched batches are written one by one, then the new headers are applied. */
module IndexUpdate {
  import opened ByteKeys
  import opened Chain
  import opened HeaderChain
  import opened Daemon
  import opened HeaderSync
  import opened Store
  import opened BlockStore
  import opened Reload
  import opened IndexRun
  import opened CrashRuns

  class Index {
    const batchSize: nat
    const headers: HeaderList

    constructor (batchSize: nat, headers: HeaderList)
      ensures this.batchSize == batchSize && this.headers == headers
    {
      this.batchSize := batchSize;
      this.headers := headers;
    }

    /**
     * `polls` is how many times the waiter is polled before it asks to stop. A stopped update leaves the
     * header list alone and some whole batches in the store. With a batch size of 0 the fetcher thread
     * panics, and so does the loop waiting for it, unless it is stopped first.
     */
    method Update(store: DBStore, a: Archive, best: Hash, active: seq<Header>, polls: nat) returns (r: Outcome<Hash>)
      requires a.Valid() && a.tree.Knows(best)
      requires Synced(a.tree, headers.View())
      requires active == HeadersOf(a.tree.PathTo(best))
      modifies headers, store
      ensures UpdateEffect(a, old(store.db), old(headers.View()), best, r, store.db, headers.View())
      ensures r == Panic <==> Reachable(Node(a.tree, best), old(headers.View()), best) && batchSize == 0 && polls > 0
      ensures r.Ok? <==>
              && Reachable(Node(a.tree, best), old(headers.View()), best)
              && Enough(a.tree.Depth(best) - ForkDepth(a.tree, old(headers.View()), best), batchSize, polls)
    {
      hide UpdateEffect;
      hide NewEntries;
      hide Enough;
      hide Reachable;
      hide ForkDepth;
      hide Synced;
      hide WriteBlocks;
      hide HashesOf;
      hide Tree.PathTo;
      hide Headers.ApplyAccepts;
      hide Headers.Applied;
      ghost var v, s := headers.View(), store.db;
      var entries := FetchEntries(a, headers.View(), best, active);
      FetchedEffect(a, s, v, best);
      if !entries.Ok? {
        return Err;
      }
      var outcome, written := WriteBatches(store, a, HashesOf(entries.value), polls);
      if outcome == Panic {
        UntouchedEffect(a, s, v, best);
        return Panic;
      }
      if outcome == Err {
        StoppedEffect(a, s, v, best, written);
        return Err;
      }
      WholePrefix(HashesOf(entries.value));
      var ok := headers.Apply(entries.value, best);
      var tip := headers.Tip();
      FinishedEffect(a, s, v, best);
      if !ok || tip != best {
        return Panic;
      }
      return Ok(best);
    }

    /** The receiving loop: how it ended, and how many blocks had been written by then. */
    method WriteBatches(store: DBStore, a: Archive, hs: seq<Hash>, polls: nat) returns (r: Outcome<()>, written: nat)
      requires AllKnown(a, hs)
      modifies store
      ensures written <= |hs| && AllKnown(a, hs[..written]) && store.db == WriteBlocks(a, old(store.db), hs[..written])
      ensures r.Ok? <==> Enough(|hs|, batchSize, polls)
      ensures r.Ok? ==> written == |hs|
      ensures r == Err ==> written == Lesser(|hs|, polls * batchSize)
      ensures r == Panic <==> batchSize == 0 && polls > 0
      ensures r == Panic ==> written == 0 && store.db == old(store.db)
    {
      ghost var s := store.db;
      var polled := 0;
      written := 0;
      while true
        invariant polled <= polls && written == Lesser(|hs|, polled * batchSize)
        invariant polled > 0 ==> batchSize > 0 && (polled - 1) * batchSize < |hs|
        invariant AllKnown(a, hs[..written]) && store.db == WriteBlocks(a, s, hs[..written])
        decreases polls - polled
      {
        if polled >= polls {
          return Err, written;
        }
        polled := polled + 1;
        if batchSize == 0 {
          return Panic, 0;
        }
        if written == |hs| {
          EnoughPolls(|hs|, batchSize, polled - 1, polls);
          return Ok(()), written;
        }
        var end := if written + batchSize < |hs| then written + batchSize else |hs|;
        BatchStep(a, s, hs, written, end);
        OneMoreBatch(|hs|, batchSize, polled);
        store.Write(BatchRows(a, hs[written..end]));
        written := end;
      }
    }
  }

  function Lesser(x: nat, y: nat): nat {
    if x <= y then x else y
  }

  /** `n` blocks fit into batches of this size, with one poll for each batch and one for the end of the stream. */
  ghost predicate Enough(n: nat, batchSize: nat, polls: nat) {
    batchSize > 0 && polls > 0 && (polls - 1) * batchSize >= n
  }

  /** That is, the polls outnumber the batches. */
  lemma EnoughIsMoreThanBatches(n: nat, batchSize: nat, polls: nat)
    requires batchSize > 0
    ensures Enough(n, batchSize, polls) <==> polls > (n + batchSize - 1) / batchSize
  {
    var q := (n + batchSize - 1) / batchSize;
    assert q * batchSize <= n + batchSize - 1 < (q + 1) * batchSize;
    if polls > q {
      assert (polls - 1) * batchSize >= q * batchSize;
      assert q * batchSize >= n;
    } else if polls > 0 {
      assert (polls - 1) * batchSize <= (q - 1) * batchSize;
      assert (q - 1) * batchSize < n;
    }
  }

  lemma OneMoreBatch(n: nat, batchSize: nat, polled: nat)
    requires polled > 0
    ensures polled * batchSize == (polled - 1) * batchSize + batchSize
  {
  }

  lemma EnoughPolls(n: nat, batchSize: nat, polled: nat, polls: nat)
    requires polled < polls && batchSize > 0 && n <= polled * batchSize
    ensures Enough(n, batchSize, polls)
  {
    assert polled * batchSize <= (polls - 1) * batchSize;
  }

  /** `order(get_new_headers(..))` against the node. */
  method FetchEntries(a: Archive, v: Headers, best: Hash, active: seq<Header>) returns (r: Outcome<seq<HeaderEntry>>)
    requires a.Valid() && a.tree.Knows(best) && active == HeadersOf(a.tree.PathTo(best))
    ensures r == NewEntries(Node(a.tree, best), v, best)
  {
    var fetched := GetNewHeaders(Node(a.tree, best), active, v, best);
    match fetched
    case Ok(hs) => r := v.Order(a.tree.hasher, hs);
    case Err => r := Err;
    case Panic => r := Panic;
  }

  lemma BatchStep(a: Archive, s: Contents, hs: seq<Hash>, done: nat, end: nat)
    requires AllKnown(a, hs) && done <= end <= |hs|
    ensures AllKnown(a, hs[done..end]) && AllKnown(a, hs[..done]) && AllKnown(a, hs[..end])
    ensures PutAll(WriteBlocks(a, s, hs[..done]), BatchRows(a, hs[done..end])) == WriteBlocks(a, s, hs[..end])
  {
    BatchIsBlocks(a, WriteBlocks(a, s, hs[..done]), hs[done..end]);
    WriteBlocksConcat(a, s, hs[..done], hs[done..end]);
    assert hs[..done] + hs[done..end] == hs[..end];
  }

  /** What an update may do to the store and the header list. */
  ghost predicate UpdateEffect(a: Archive, s: Contents, v: Headers, best: Hash, r: Outcome<Hash>, s': Contents, v': Headers)
    requires a.Valid() && a.tree.Knows(best)
  {
    if !Reachable(Node(a.tree, best), v, best) then r == Err && s' == s && v' == v
    else
      match r
      case Ok(tip) => tip == best && Sync(Node(a.tree, best), v, best) == Ok(v') && s' == Written(a, s, v, best, a.tree.Depth(best))
      case Err => v' == v && exists n :: ForkDepth(a.tree, v, best) <= n <= a.tree.Depth(best) && s' == Written(a, s, v, best, n)
      case Panic => s' == s && v' == v
  }

  lemma UntouchedEffect(a: Archive, s: Contents, v: Headers, best: Hash)
    requires a.Valid() && a.tree.Knows(best) && Reachable(Node(a.tree, best), v, best)
    ensures UpdateEffect(a, s, v, best, Panic, s, v)
  {
  }

  lemma WholePrefix(hs: seq<Hash>)
    ensures hs[..|hs|] == hs
  {
  }

  /** A fetch that fails changes nothing; otherwise the blocks to write are known. */
  lemma FetchedEffect(a: Archive, s: Contents, v: Headers, best: Hash)
    requires a.Valid() && a.tree.Knows(best) && Synced(a.tree, v)
    ensures var entries := NewEntries(Node(a.tree, best), v, best);
            && (entries.Ok? <==> Reachable(Node(a.tree, best), v, best))
            && (!entries.Ok? ==> UpdateEffect(a, s, v, best, Err, s, v))
            && (entries.Ok? ==> AllKnown(a, HashesOf(entries.value)) && |HashesOf(entries.value)| == a.tree.Depth(best) - ForkDepth(a.tree, v, best))
  {
    if Reachable(Node(a.tree, best), v, best) {
      NewHashes(a, v, best);
    }
  }

  /** Stopping after `n` blocks. */
  lemma StoppedEffect(a: Archive, s: Contents, v: Headers, best: Hash, n: nat)
    requires a.Valid() && a.tree.Knows(best) && Synced(a.tree, v) && Reachable(Node(a.tree, best), v, best)
    requires NewEntries(Node(a.tree, best), v, best).Ok? && n <= |HashesOf(NewEntries(Node(a.tree, best), v, best).value)|
    ensures var hs := HashesOf(NewEntries(Node(a.tree, best), v, best).value);
            AllKnown(a, hs[..n]) && UpdateEffect(a, s, v, best, Err, WriteBlocks(a, s, hs[..n]), v)
  {
    hide UpdateEffect;
    hide NewEntries;
    hide Branch;
    hide WriteBlocks;
    hide ForkDepth;
    hide Synced;
    var k := ForkDepth(a.tree, v, best);
    NewHashes(a, v, best);
    CutIsWritten(a, s, v, best, k + n);
    StoppedAt(a, s, v, best, k + n);
  }

  lemma StoppedAt(a: Archive, s: Contents, v: Headers, best: Hash, n: nat)
    requires a.Valid() && a.tree.Knows(best) && Reachable(Node(a.tree, best), v, best)
    requires ForkDepth(a.tree, v, best) <= n <= a.tree.Depth(best)
    ensures UpdateEffect(a, s, v, best, Err, Written(a, s, v, best, n), v)
  {
  }

  lemma CutIsWritten(a: Archive, s: Contents, v: Headers, best: Hash, n: nat)
    requires a.Valid() && a.tree.Knows(best)
    requires ForkDepth(a.tree, v, best) <= n <= a.tree.Depth(best)
    ensures var hs := Branch(a, best, ForkDepth(a.tree, v, best), a.tree.Depth(best))[..n - ForkDepth(a.tree, v, best)];
            AllKnown(a, hs) && WriteBlocks(a, s, hs) == Written(a, s, v, best, n)
  {
    BranchPrefix(a, best, ForkDepth(a.tree, v, best), n, a.tree.Depth(best));
  }

  /** Writing everything and applying the entries. */
  lemma FinishedEffect(a: Archive, s: Contents, v: Headers, best: Hash)
    requires a.Valid() && a.tree.Knows(best) && Synced(a.tree, v) && Reachable(Node(a.tree, best), v, best)
    ensures var es := NewEntries(Node(a.tree, best), v, best);
            && es.Ok? && v.ApplyAccepts(es.value, best) && v.Applied(es.value, best).Tip() == best
            && AllKnown(a, HashesOf(es.value))
            && UpdateEffect(a, s, v, best, Ok(best), WriteBlocks(a, s, HashesOf(es.value)), v.Applied(es.value, best))
  {
    hide NewEntries;
    hide Branch;
    hide ForkDepth;
    hide Synced;
    hide Shares;
    hide WriteBlocks;
    SyncedTip(Node(a.tree, best), v);
    NewHashes(a, v, best);
  }

  /** The store once the path to `best` has been written up to depth `n`, starting above the fork. */
  ghost function Written(a: Archive, s: Contents, v: Headers, best: Hash, n: nat): Contents
    requires a.Valid() && a.tree.Knows(best)
    requires ForkDepth(a.tree, v, best) <= n <= a.tree.Depth(best)
  {
    WriteBlocks(a, s, Branch(a, best, ForkDepth(a.tree, v, best), n))
  }

  /** Stopped or complete, an update of a consistent store leaves it consistent. */
  lemma WrittenConsistent(a: Archive, s: Contents, v: Headers, best: Hash, n: nat)
    requires a.Valid() && Synced(a.tree, v) && a.tree.Knows(best)
    requires ForkDepth(a.tree, v, best) <= n <= a.tree.Depth(best)
    requires Consistent(a, s) && a.tree.OnPath(v.Tip(), LastOf(s))
    ensures Consistent(a, Written(a, s, v, best, n))
    ensures n > ForkDepth(a.tree, v, best) ==> LastOf(Written(a, s, v, best, n)) == Ancestor(a.tree, best, n)
  {
    var k := ForkDepth(a.tree, v, best);
    ForkIsShared(a.tree, v, best);
    ForkGood(a, s, v, best, k);
    BranchWritten(a, s, best, k, n);
  }

  /**
   * The method refines the steps of the run theorems: when it succeeds, the store and the list are those of
   * the completed step, and when it fails, the store is the last one of an interrupted step.
   */
  lemma UpdateRefinesStep(a: Archive, sys: System, best: Hash, r: Outcome<Hash>, s': Contents, v': Headers)
    requires a.Valid() && Invariant(a, sys) && a.tree.Knows(best)
    requires UpdateEffect(a, sys.Current(), sys.headers, best, r, s', v')
    ensures Updated(a, sys, best).Ok? && Updated(a, sys, best).value.history != []
    ensures r.Ok? ==> v' == Updated(a, sys, best).value.headers && s' == Updated(a, sys, best).value.Current()
    ensures !r.Ok? ==> v' == sys.headers && exists n :: LastInterrupted(a, sys, best, n, s')
  {
    hide Updated;
    hide LastInterrupted;
    hide BranchStores;
    hide Written;
    hide AllConsistent;
    hide Synced;
    UpdateKeeps(a, sys, best);
    if !Reachable(Node(a.tree, best), sys.headers, best) {
      FailedIsLast(a, sys, best);
    } else if r.Ok? {
      UpdatedIsBranch(a, sys, best);
      DoneIsLast(a, sys, best, ForkDepth(a.tree, sys.headers, best));
    } else if r.Err? {
      var n :| ForkDepth(a.tree, sys.headers, best) <= n <= a.tree.Depth(best) && s' == Written(a, sys.Current(), sys.headers, best, n);
      CutIsLast(a, sys, best, n);
    } else {
      NothingWritten(a, sys, best);
      CutIsLast(a, sys, best, ForkDepth(a.tree, sys.headers, best));
    }
  }

  lemma FailedIsLast(a: Archive, sys: System, best: Hash)
    requires a.Valid() && sys.history != [] && a.tree.Knows(best) && Synced(a.tree, sys.headers)
    requires !Reachable(Node(a.tree, best), sys.headers, best)
    ensures LastInterrupted(a, sys, best, 0, sys.Current())
  {
  }

  lemma NothingWritten(a: Archive, sys: System, best: Hash)
    requires a.Valid() && sys.history != [] && a.tree.Knows(best)
    ensures Written(a, sys.Current(), sys.headers, best, ForkDepth(a.tree, sys.headers, best)) == sys.Current()
  {
  }

  /** `s` is the last store of the update interrupted after `n` blocks. */
  ghost predicate LastInterrupted(a: Archive, sys: System, best: Hash, n: nat, s: Contents)
    requires a.Valid() && sys.history != [] && a.tree.Knows(best)
  {
    var i := Interrupted(a, sys, best, n);
    i.Ok? && i.value != [] && s == i.value[|i.value| - 1]
  }

  lemma DoneIsLast(a: Archive, sys: System, best: Hash, k: nat)
    requires a.Valid() && sys.history != [] && a.tree.Knows(best) && k == ForkDepth(a.tree, sys.headers, best)
    ensures Written(a, sys.Current(), sys.headers, best, a.tree.Depth(best))
         == LastStore(sys.history, BranchStores(a, sys.Current(), best, k))
    ensures var h := sys.history + BranchStores(a, sys.Current(), best, k);
            h[|h| - 1] == LastStore(sys.history, BranchStores(a, sys.Current(), best, k))
  {
    hide ForkDepth;
    var n := a.tree.Depth(best);
    if k < n {
      BranchStoreAt(a, sys.Current(), best, k, n);
    } else {
      assert Branch(a, best, k, n) == [];
    }
  }

  lemma CutIsLast(a: Archive, sys: System, best: Hash, n: nat)
    requires a.Valid() && sys.history != [] && Synced(a.tree, sys.headers) && a.tree.Knows(best)
    requires Reachable(Node(a.tree, best), sys.headers, best)
    requires ForkDepth(a.tree, sys.headers, best) <= n <= a.tree.Depth(best)
    ensures LastInterrupted(a, sys, best, n - ForkDepth(a.tree, sys.headers, best), Written(a, sys.Current(), sys.headers, best, n))
  {
    hide Interrupted;
    hide ForkDepth;
    hide Synced;
    hide Branch;
    hide BranchStores;
    var k := ForkDepth(a.tree, sys.headers, best);
    InterruptedIsBranch(a, sys, best, n - k);
    if k < n {
      BranchStoreAt(a, sys.Current(), best, k, n);
    } else {
      assert Branch(a, best, k, n) == [];
    }
  }
}
