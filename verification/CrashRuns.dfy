/** Runs of the indexer in which the node's best block moves and the process may crash at any batch boundary. */
module CrashRuns {
  import opened ByteKeys
  import opened Chain
  import opened HeaderChain
  import opened Daemon
  import opened HeaderSync
  import opened Rows
  import opened Store
  import opened BlockStore
  import opened Reload
  import opened IndexRun

  /** The database at every batch boundary so far (the last one is current) and the header list in memory. */
  datatype System = System(history: seq<Contents>, headers: Headers) {
    function Current(): Contents
      requires history != []
    {
      history[|history| - 1]
    }
  }

  const START := System([NO_ROWS], EMPTY)

  /**
   * An update to the node's best block; or an update that stops after some blocks, followed by a crash
   * that keeps only some prefix of all batches written, and a restart.
   */
  datatype Event = Update(best: Hash) | Crash(best: Hash, written: nat, survivor: nat)

  /** The stores after each of the blocks. */
  function Snapshots(a: Archive, s: Contents, hs: seq<Hash>): (ss: seq<Contents>)
    requires AllKnown(a, hs)
    ensures |ss| == |hs|
  {
    seq(|hs|, i requires 0 <= i < |hs| => WriteBlocks(a, s, hs[..i + 1]))
  }

  /** `Index::update` */
  ghost function Updated(a: Archive, sys: System, best: Hash): Outcome<System>
    requires a.Valid() && a.tree.Knows(best) && sys.history != []
  {
    match NewEntries(Node(a.tree, best), sys.headers, best)
    case Ok(es) =>
      if AllKnown(a, HashesOf(es)) && sys.headers.ApplyAccepts(es, best)
      then Ok(System(sys.history + Snapshots(a, sys.Current(), HashesOf(es)), sys.headers.Applied(es, best)))
      else Panic
    case Err => Ok(sys)
    case Panic => Panic
  }

  /** The batch boundaries that exist when an update stops after `written` blocks. */
  ghost function Interrupted(a: Archive, sys: System, best: Hash, written: nat): Outcome<seq<Contents>>
    requires a.Valid() && a.tree.Knows(best) && sys.history != []
  {
    match NewEntries(Node(a.tree, best), sys.headers, best)
    case Ok(es) =>
      var hs := HashesOf(es);
      if !AllKnown(a, hs) then Panic
      else Ok(sys.history + Snapshots(a, sys.Current(), hs)[..if written <= |hs| then written else |hs|])
    case Err => Ok(sys.history)
    case Panic => Panic
  }

  /** Restarting from the batch boundary `survivor`. */
  ghost function Restarted(a: Archive, history: seq<Contents>, survivor: nat): Outcome<System>
    requires history != []
  {
    var i := if survivor < |history| then survivor else |history| - 1;
    match Reloaded(a.tree.hasher, history[i])
    case Ok(v) => Ok(System(history[..i + 1], v))
    case _ => Panic
  }

  ghost function Step(a: Archive, sys: System, e: Event): Outcome<System>
    requires a.Valid() && a.tree.Knows(e.best) && sys.history != []
  {
    match e
    case Update(best) => Updated(a, sys, best)
    case Crash(best, written, survivor) =>
      match Interrupted(a, sys, best, written)
      case Ok(history) => if history == [] then Panic else Restarted(a, history, survivor)
      case _ => Panic
  }

  /**
   * What every reachable system satisfies: each batch boundary is consistent, the header list is a path of
   * the tree, and its tip lies on the path to `L` (strictly below it after a trim).
   */
  ghost predicate Invariant(a: Archive, sys: System)
    requires a.Valid()
  {
    && sys.history != []
    && AllConsistent(a, sys.history)
    && Synced(a.tree, sys.headers)
    && a.tree.OnPath(sys.headers.Tip(), LastOf(sys.Current()))
  }

  lemma InitialInvariant(a: Archive)
    requires a.Valid()
    ensures Invariant(a, START)
  {
    EmptyFaithful(a);
    EmptySynced(a.tree);
  }

  // ---------------------------------------------------------------- one update

  /** A fork point is on the path to every block that has the list's tip on its path. */
  lemma ForkOnPath(t: Tree, v: Headers, best: Hash, k: nat, last: Hash)
    requires t.Valid() && Synced(t, v) && t.Knows(best) && Shares(t, v, best, k)
    requires t.Knows(last) && t.OnPath(v.Tip(), last)
    ensures t.Knows(Ancestor(t, best, k)) && t.OnPath(Ancestor(t, best, k), last)
  {
    AncestorPath(t, best, k);
    assert t.PathTo(Ancestor(t, best, k)) == v.entries[..k];
  }

  /** So the database is good up to the fork point. */
  lemma ForkGood(a: Archive, s: Contents, v: Headers, best: Hash, k: nat)
    requires a.Valid() && Synced(a.tree, v) && a.tree.Knows(best) && Shares(a.tree, v, best, k)
    requires Consistent(a, s) && a.tree.OnPath(v.Tip(), LastOf(s))
    ensures a.tree.Knows(Ancestor(a.tree, best, k))
    ensures Good(a, s, Ancestor(a.tree, best, k))
  {
    ForkOnPath(a.tree, v, best, k, LastOf(s));
    GoodBelow(a, s, LastOf(s), Ancestor(a.tree, best, k));
  }

  /** The update's blocks are the branch above the fork. */
  lemma NewHashes(a: Archive, v: Headers, best: Hash)
    requires a.Valid() && Synced(a.tree, v) && a.tree.Knows(best) && Reachable(Node(a.tree, best), v, best)
    ensures Shares(a.tree, v, best, ForkDepth(a.tree, v, best))
    ensures NewEntries(Node(a.tree, best), v, best).Ok?
    ensures HashesOf(NewEntries(Node(a.tree, best), v, best).value) == Branch(a, best, ForkDepth(a.tree, v, best), a.tree.Depth(best))
  {
    var k := ForkDepth(a.tree, v, best);
    NewEntriesAreBranch(Node(a.tree, best), v, best);
    assert a.tree.PathTo(best)[k..] == a.tree.PathTo(best)[k..a.tree.Depth(best)];
  }

  lemma BranchPrefix(a: Archive, best: Hash, k: nat, n: nat, m: nat)
    requires a.Valid() && a.tree.Knows(best) && k <= n <= m <= |a.tree.PathTo(best)|
    ensures Branch(a, best, k, m)[..n - k] == Branch(a, best, k, n)
  {
  }

  /** The batch boundaries of an update that forks at depth `k`. */
  ghost function BranchStores(a: Archive, s: Contents, best: Hash, k: nat): (ss: seq<Contents>)
    requires a.Valid() && a.tree.Knows(best) && k <= a.tree.Depth(best)
    ensures |ss| == a.tree.Depth(best) - k
  {
    Snapshots(a, s, Branch(a, best, k, a.tree.Depth(best)))
  }

  lemma BranchStoreAt(a: Archive, s: Contents, best: Hash, k: nat, n: nat)
    requires a.Valid() && a.tree.Knows(best) && k < n <= a.tree.Depth(best)
    ensures BranchStores(a, s, best, k)[n - k - 1] == WriteBlocks(a, s, Branch(a, best, k, n))
  {
    BranchPrefix(a, best, k, n, a.tree.Depth(best));
    SnapshotAt(a, s, Branch(a, best, k, a.tree.Depth(best)), n - k - 1);
  }

  /** Every batch boundary of an update is consistent. */
  lemma SnapshotConsistent(a: Archive, s: Contents, best: Hash, k: nat, n: nat)
    requires a.Valid() && a.tree.Knows(best) && k < n <= a.tree.Depth(best)
    requires a.tree.Knows(Ancestor(a.tree, best, k)) && Good(a, s, Ancestor(a.tree, best, k))
    ensures Consistent(a, BranchStores(a, s, best, k)[n - k - 1])
    ensures LastOf(BranchStores(a, s, best, k)[n - k - 1]) == Ancestor(a.tree, best, n)
  {
    BranchStoreAt(a, s, best, k, n);
    BranchWritten(a, s, best, k, n);
  }

  lemma SnapshotAt(a: Archive, s: Contents, hs: seq<Hash>, i: nat)
    requires AllKnown(a, hs) && i < |hs|
    ensures Snapshots(a, s, hs)[i] == WriteBlocks(a, s, hs[..i + 1])
  {
  }

  ghost predicate AllConsistent(a: Archive, ss: seq<Contents>)
    requires a.Valid()
  {
    forall i :: 0 <= i < |ss| ==> Consistent(a, ss[i])
  }

  lemma AllConsistentConcat(a: Archive, g: seq<Contents>, h: seq<Contents>)
    requires a.Valid() && AllConsistent(a, g) && AllConsistent(a, h)
    ensures AllConsistent(a, g + h)
  {
  }

  lemma BranchStoresConsistent(a: Archive, s: Contents, best: Hash, k: nat)
    requires a.Valid() && a.tree.Knows(best) && k <= a.tree.Depth(best)
    requires a.tree.Knows(Ancestor(a.tree, best, k)) && Good(a, s, Ancestor(a.tree, best, k))
    ensures AllConsistent(a, BranchStores(a, s, best, k))
  {
    forall i | 0 <= i < |BranchStores(a, s, best, k)|
      ensures Consistent(a, BranchStores(a, s, best, k)[i])
    {
      SnapshotConsistent(a, s, best, k, k + i + 1);
    }
  }

  /** After the last batch `L` is the tip. */
  lemma LastBatchReachesTip(a: Archive, s: Contents, best: Hash, k: nat)
    requires a.Valid() && a.tree.Knows(best) && k < a.tree.Depth(best)
    ensures LastOf(BranchStores(a, s, best, k)[a.tree.Depth(best) - k - 1]) == best
  {
    var n := a.tree.Depth(best);
    AncestorPath(a.tree, best, n);
    BranchStoreAt(a, s, best, k, n);
    BranchStep(a, best, k, n);
    WriteBlocksPush(a, s, Branch(a, best, k, n - 1), best);
  }

  /** Without any batch the tip was already on the path to `L`. */
  lemma TrimStaysOnPath(a: Archive, s: Contents, v: Headers, best: Hash)
    requires a.Valid() && Synced(a.tree, v) && a.tree.Knows(best) && Shares(a.tree, v, best, a.tree.Depth(best))
    requires a.tree.Knows(LastOf(s)) && a.tree.OnPath(v.Tip(), LastOf(s))
    ensures a.tree.OnPath(best, LastOf(s))
  {
    AncestorPath(a.tree, best, a.tree.Depth(best));
    ForkOnPath(a.tree, v, best, a.tree.Depth(best), LastOf(s));
  }

  /** What an update does, in terms of the branch it writes. */
  lemma UpdatedIsBranch(a: Archive, sys: System, best: Hash)
    requires a.Valid() && sys.history != [] && Synced(a.tree, sys.headers)
    requires a.tree.Knows(best) && Reachable(Node(a.tree, best), sys.headers, best)
    ensures Updated(a, sys, best).Ok? && Sync(Node(a.tree, best), sys.headers, best).Ok?
    ensures Updated(a, sys, best).value.headers == Sync(Node(a.tree, best), sys.headers, best).value
    ensures Updated(a, sys, best).value.history ==
            sys.history + BranchStores(a, sys.Current(), best, ForkDepth(a.tree, sys.headers, best))
  {
    SyncStep(Node(a.tree, best), sys.headers, best);
    NewHashes(a, sys.headers, best);
  }

  /** One update of a reachable system: it never panics, keeps the invariant and ends with the path to the best block. */
  lemma UpdateKeeps(a: Archive, sys: System, best: Hash)
    requires a.Valid() && Invariant(a, sys) && a.tree.Knows(best)
    ensures Updated(a, sys, best).Ok? && Invariant(a, Updated(a, sys, best).value)
    ensures Updated(a, sys, best).value.headers.entries == a.tree.PathTo(best)
    ensures sys.history <= Updated(a, sys, best).value.history
  {
    if Reachable(Node(a.tree, best), sys.headers, best) {
      UpdatedIsBranch(a, sys, best);
      SyncedTip(Node(a.tree, best), sys.headers);
      ForkIsShared(a.tree, sys.headers, best);
      HistoryInvariant(a, sys, best, ForkDepth(a.tree, sys.headers, best), Sync(Node(a.tree, best), sys.headers, best).value);
    } else {
      assert sys.headers.entries == [] && best == NULL_HASH;
    }
  }

  /** An update indexes its tip and forgets no block, of whatever branch. */
  lemma UpdateIndexes(a: Archive, sys: System, best: Hash)
    requires a.Valid() && Invariant(a, sys) && best in a.tree.headers
    ensures Updated(a, sys, best).Ok? && Invariant(a, Updated(a, sys, best).value)
    ensures Updated(a, sys, best).value.headers.entries == a.tree.PathTo(best)
    ensures IndexedBlocks(a, sys.Current()) + {best} <= IndexedBlocks(a, Updated(a, sys, best).value.Current())
  {
    hide Updated;
    hide BranchStores;
    hide AllConsistent;
    hide Synced;
    hide IndexedBlocks;
    UpdateKeeps(a, sys, best);
    UpdatedIsBranch(a, sys, best);
    LaterIndexed(a, sys, Updated(a, sys, best).value, best, ForkDepth(a.tree, sys.headers, best));
  }

  lemma LaterIndexed(a: Archive, sys: System, next: System, best: Hash, k: nat)
    requires a.Valid() && Invariant(a, sys) && Invariant(a, next) && best in a.tree.headers && k <= a.tree.Depth(best)
    requires next.headers.entries == a.tree.PathTo(best)
    requires next.history == sys.history + BranchStores(a, sys.Current(), best, k)
    ensures IndexedBlocks(a, sys.Current()) + {best} <= IndexedBlocks(a, next.Current())
  {
    hide BranchStores;
    hide AllConsistent;
    hide Synced;
    hide IndexedBlocks;
    hide Tree.PathTo;
    hide Tree.OnPath;
    var ss := BranchStores(a, sys.Current(), best, k);
    TipIndexed(a, next, best);
    LastIndexed(a, sys, best, k);
    assert (sys.history + ss)[|sys.history + ss| - 1] == LastStore(sys.history, ss);
  }

  lemma LastIndexed(a: Archive, sys: System, best: Hash, k: nat)
    requires a.Valid() && Invariant(a, sys) && a.tree.Knows(best) && k <= a.tree.Depth(best)
    ensures IndexedBlocks(a, sys.Current()) <= IndexedBlocks(a, LastStore(sys.history, BranchStores(a, sys.Current(), best, k)))
  {
    assert Consistent(a, sys.Current());
    hide Faithful;
    hide IndexedBlocks;
    if k < a.tree.Depth(best) {
      BranchStoreAt(a, sys.Current(), best, k, a.tree.Depth(best));
      WriteBlocksIndexed(a, sys.Current(), Branch(a, best, k, a.tree.Depth(best)));
    }
  }

  /** The tip of the header list has its `B` row. */
  lemma TipIndexed(a: Archive, sys: System, best: Hash)
    requires a.Valid() && Invariant(a, sys) && best in a.tree.headers && sys.headers.entries == a.tree.PathTo(best)
    ensures best in IndexedBlocks(a, sys.Current())
  {
    var s := sys.Current();
    assert Consistent(a, s);
    hide Faithful;
    a.tree.PathShapeAll(best);
    a.tree.OnPathAt(best, LastOf(s));
    assert Indexed(s, best);
  }

  lemma HistoryInvariant(a: Archive, sys: System, best: Hash, k: nat, w: Headers)
    requires a.Valid() && Invariant(a, sys) && a.tree.Knows(best) && Shares(a.tree, sys.headers, best, k)
    requires Synced(a.tree, w) && w.Tip() == best
    ensures Invariant(a, System(sys.history + BranchStores(a, sys.Current(), best, k), w))
  {
    hide Good;
    hide Shares;
    HistoryConsistent(a, sys, best, k);
    assert Consistent(a, sys.Current());
    BestOnPathToLast(a, sys.history, sys.headers, best, k);
    InvariantFrom(a, sys.history, BranchStores(a, sys.Current(), best, k), w);
  }

  lemma SyncedTip(node: Node, v: Headers)
    requires node.Valid() && Synced(node.tree, v) && Reachable(node, v, node.best)
    ensures Sync(node, v, node.best).Ok? && Synced(node.tree, Sync(node, v, node.best).value)
    ensures Sync(node, v, node.best).value.entries == node.tree.PathTo(node.best)
    ensures Sync(node, v, node.best).value.Tip() == node.best
  {
    SyncStep(node, v, node.best);
    node.tree.PathShapeAll(node.best);
  }

  lemma HistoryConsistent(a: Archive, sys: System, best: Hash, k: nat)
    requires a.Valid() && Invariant(a, sys) && a.tree.Knows(best) && Shares(a.tree, sys.headers, best, k)
    ensures AllConsistent(a, sys.history + BranchStores(a, sys.Current(), best, k))
  {
    assert Consistent(a, sys.Current());
    ForkGood(a, sys.Current(), sys.headers, best, k);
    BranchStoresConsistent(a, sys.Current(), best, k);
    AllConsistentConcat(a, sys.history, BranchStores(a, sys.Current(), best, k));
  }

  function LastStore(g: seq<Contents>, h: seq<Contents>): Contents
    requires g != []
  {
    if h == [] then g[|g| - 1] else h[|h| - 1]
  }

  lemma InvariantFrom(a: Archive, g: seq<Contents>, h: seq<Contents>, v: Headers)
    requires a.Valid() && g != [] && AllConsistent(a, g + h) && Synced(a.tree, v)
    requires a.tree.Knows(LastOf(LastStore(g, h))) && a.tree.OnPath(v.Tip(), LastOf(LastStore(g, h)))
    ensures Invariant(a, System(g + h, v))
  {
    assert (g + h)[|g + h| - 1] == LastStore(g, h);
  }

  /** After an update the best block is on the path to `L`. */
  lemma BestOnPathToLast(a: Archive, g: seq<Contents>, v: Headers, best: Hash, k: nat)
    requires a.Valid() && Synced(a.tree, v) && a.tree.Knows(best) && Shares(a.tree, v, best, k)
    requires g != [] && Consistent(a, g[|g| - 1]) && a.tree.OnPath(v.Tip(), LastOf(g[|g| - 1]))
    ensures var last := LastOf(LastStore(g, BranchStores(a, g[|g| - 1], best, k)));
            a.tree.Knows(last) && a.tree.OnPath(best, last)
  {
    hide BranchStores;
    hide Faithful;
    hide Stored;
    hide Synced;
    if k < a.tree.Depth(best) {
      LastBatchReachesTip(a, g[|g| - 1], best, k);
    } else {
      TrimStaysOnPath(a, g[|g| - 1], v, best);
    }
  }

  // ---------------------------------------------------------------- crashes

  lemma InterruptedKeeps(a: Archive, sys: System, best: Hash, written: nat)
    requires a.Valid() && Invariant(a, sys) && a.tree.Knows(best)
    ensures Interrupted(a, sys, best, written).Ok?
    ensures sys.history <= Interrupted(a, sys, best, written).value
    ensures AllConsistent(a, Interrupted(a, sys, best, written).value)
  {
    if Reachable(Node(a.tree, best), sys.headers, best) {
      NewHashes(a, sys.headers, best);
      HistoryConsistent(a, sys, best, ForkDepth(a.tree, sys.headers, best));
      var ss := BranchStores(a, sys.Current(), best, ForkDepth(a.tree, sys.headers, best));
      CutConsistent(a, sys.history, ss, if written <= |ss| then written else |ss|);
    }
  }

  lemma CutConsistent(a: Archive, g: seq<Contents>, h: seq<Contents>, n: nat)
    requires a.Valid() && AllConsistent(a, g + h) && n <= |h|
    ensures AllConsistent(a, g + h[..n])
  {
    assert forall i :: 0 <= i < |g + h[..n]| ==> (g + h[..n])[i] == (g + h)[i];
  }

  /** From any surviving batch boundary the restart rebuilds exactly the path to that boundary's `L`. */
  lemma RestartKeeps(a: Archive, history: seq<Contents>, survivor: nat)
    requires a.Valid() && history != []
    requires AllConsistent(a, history)
    ensures Restarted(a, history, survivor).Ok?
    ensures Invariant(a, Restarted(a, history, survivor).value)
    ensures var sys := Restarted(a, history, survivor).value;
            sys.history <= history && sys.headers.entries == a.tree.PathTo(LastOf(sys.Current()))
  {
    var i := if survivor < |history| then survivor else |history| - 1;
    assert Consistent(a, history[i]);
    ReloadReturnsPath(a, history[i]);
    a.tree.PathShapeAll(LastOf(history[i]));
  }

  lemma StepKeeps(a: Archive, sys: System, e: Event)
    requires a.Valid() && Invariant(a, sys) && a.tree.Knows(e.best)
    ensures Step(a, sys, e).Ok? && Invariant(a, Step(a, sys, e).value)
  {
    match e
    case Update(best) =>
      UpdateKeeps(a, sys, best);
    case Crash(best, written, survivor) =>
      InterruptedKeeps(a, sys, best, written);
      RestartKeeps(a, Interrupted(a, sys, best, written).value, survivor);
  }

  // ---------------------------------------------------------------- runs

  ghost function Run(a: Archive, sys: System, events: seq<Event>): Outcome<System>
    requires a.Valid() && sys.history != []
    requires forall i :: 0 <= i < |events| ==> a.tree.Knows(events[i].best)
    decreases |events|
  {
    if events == [] then Ok(sys)
    else
      match Step(a, sys, events[0])
      case Ok(next) => if next.history == [] then Panic else Run(a, next, events[1..])
      case _ => Panic
  }

  /**
   * Every run, whatever the node does and wherever the process crashes: nothing
   * panics, every batch boundary is consistent, and the header list stays on the path to `L`.
   */
  lemma {:induction false} RunKeeps(a: Archive, sys: System, events: seq<Event>)
    requires a.Valid() && Invariant(a, sys)
    requires forall i :: 0 <= i < |events| ==> a.tree.Knows(events[i].best)
    ensures Run(a, sys, events).Ok? && Invariant(a, Run(a, sys, events).value)
    decreases |events|
  {
    if events != [] {
      StepKeeps(a, sys, events[0]);
      RunKeeps(a, Step(a, sys, events[0]).value, events[1..]);
    }
  }

  /** At every batch boundary of every run a restart finds all headers and returns exactly the path to `L`. */
  lemma EveryPrefixReloads(a: Archive, events: seq<Event>)
    requires a.Valid()
    requires forall j :: 0 <= j < |events| ==> a.tree.Knows(events[j].best)
    ensures Run(a, START, events).Ok?
    ensures forall i :: 0 <= i < |Run(a, START, events).value.history| ==>
              var s := Run(a, START, events).value.history[i];
              && a.tree.Knows(LastOf(s))
              && Reloaded(a.tree.hasher, s).Ok?
              && Reloaded(a.tree.hasher, s).value.entries == a.tree.PathTo(LastOf(s))
  {
    InitialInvariant(a);
    RunKeeps(a, START, events);
    hide Run;
    hide Reloaded;
    var history := Run(a, START, events).value.history;
    forall i | 0 <= i < |history|
      ensures a.tree.Knows(LastOf(history[i])) && Reloaded(a.tree.hasher, history[i]).Ok?
      ensures Reloaded(a.tree.hasher, history[i]).value.entries == a.tree.PathTo(LastOf(history[i]))
    {
      assert Consistent(a, history[i]);
      ReloadReturnsPath(a, history[i]);
    }
  }

  // ---------------------------------------------------------------- what else every batch boundary keeps

  /** `s` is what the current database becomes after some blocks of an update to `best`. */
  ghost predicate WrittenBy(a: Archive, sys: System, best: Hash, s: Contents)
    requires a.Valid() && Invariant(a, sys) && a.tree.Knows(best)
  {
    exists k: nat, n: nat :: k < n <= a.tree.Depth(best) && Shares(a.tree, sys.headers, best, k) &&
                   s == WriteBlocks(a, sys.Current(), Branch(a, best, k, n))
  }

  /** An interrupted update leaves some of the branch's boundaries. */
  lemma InterruptedIsBranch(a: Archive, sys: System, best: Hash, written: nat)
    requires a.Valid() && sys.history != [] && Synced(a.tree, sys.headers)
    requires a.tree.Knows(best) && Reachable(Node(a.tree, best), sys.headers, best)
    ensures Interrupted(a, sys, best, written).Ok?
    ensures var ss := BranchStores(a, sys.Current(), best, ForkDepth(a.tree, sys.headers, best));
            Interrupted(a, sys, best, written).value == sys.history + ss[..if written <= |ss| then written else |ss|]
  {
    NewHashes(a, sys.headers, best);
  }

  lemma RestartedHistory(a: Archive, history: seq<Contents>, survivor: nat)
    requires history != [] && Restarted(a, history, survivor).Ok?
    ensures Restarted(a, history, survivor).value.history <= history
  {
  }

  /** What an update that reaches its tip adds to the history, completely or in part. */
  lemma StepHistory(a: Archive, sys: System, e: Event)
    requires a.Valid() && Invariant(a, sys) && a.tree.Knows(e.best) && Reachable(Node(a.tree, e.best), sys.headers, e.best)
    requires Step(a, sys, e).Ok?
    ensures Step(a, sys, e).value.history <= sys.history + BranchStores(a, sys.Current(), e.best, ForkDepth(a.tree, sys.headers, e.best))
  {
    hide Updated;
    hide Interrupted;
    hide Restarted;
    hide BranchStores;
    hide AllConsistent;
    hide Synced;
    match e
    case Update(best) =>
      UpdatedIsBranch(a, sys, best);
    case Crash(best, written, survivor) =>
      InterruptedIsBranch(a, sys, best, written);
      RestartedHistory(a, Interrupted(a, sys, best, written).value, survivor);
  }

  /** Every batch boundary after a step is one from before it or was written by its update. */
  lemma StepStores(a: Archive, sys: System, e: Event, i: nat)
    requires a.Valid() && Invariant(a, sys) && a.tree.Knows(e.best)
    requires Step(a, sys, e).Ok? && i < |Step(a, sys, e).value.history|
    ensures var s := Step(a, sys, e).value.history[i];
            s in sys.history || WrittenBy(a, sys, e.best, s)
  {
    if Reachable(Node(a.tree, e.best), sys.headers, e.best) {
      StepHistory(a, sys, e);
      ForkIsShared(a.tree, sys.headers, e.best);
      hide Step;
      hide Synced;
      hide AllConsistent;
      HistoryStores(a, sys, e.best, ForkDepth(a.tree, sys.headers, e.best), i);
    }
  }

  lemma HistoryStores(a: Archive, sys: System, best: Hash, k: nat, i: nat)
    requires a.Valid() && Invariant(a, sys) && a.tree.Knows(best) && Shares(a.tree, sys.headers, best, k)
    requires i < |sys.history + BranchStores(a, sys.Current(), best, k)|
    ensures var s := (sys.history + BranchStores(a, sys.Current(), best, k))[i];
            s in sys.history || WrittenBy(a, sys, best, s)
  {
    hide AllConsistent;
    hide Synced;
    if i >= |sys.history| {
      BranchStoreAt(a, sys.Current(), best, k, k + (i - |sys.history|) + 1);
    }
  }

  /** `h` names the transaction `x` it holds, at every one of these batch boundaries that has `h` on the path to `L`. */
  ghost predicate NamedIn(a: Archive, ss: seq<Contents>, h: Hash, x: Hash)
    requires a.Valid() && h in a.tree.headers && AllConsistent(a, ss)
  {
    forall i :: 0 <= i < |ss| ==> NamedAt(a, ss[i], LastOf(ss[i]), h, x)
  }

  lemma WrittenNamed(a: Archive, sys: System, best: Hash, s: Contents, h: Hash, x: Hash)
    requires a.Valid() && Invariant(a, sys) && a.tree.Knows(best) && WrittenBy(a, sys, best, s)
    requires h in a.tree.headers && a.NoneAbove(h, x) && NamedAt(a, sys.Current(), LastOf(sys.Current()), h, x)
    ensures a.tree.Knows(LastOf(s)) && NamedAt(a, s, LastOf(s), h, x)
  {
    var k: nat, n: nat :| k < n <= a.tree.Depth(best) && Shares(a.tree, sys.headers, best, k) &&
                s == WriteBlocks(a, sys.Current(), Branch(a, best, k, n));
    assert Consistent(a, sys.Current());
    ForkGood(a, sys.Current(), sys.headers, best, k);
    ForkOnPath(a.tree, sys.headers, best, k, LastOf(sys.Current()));
    BranchWritten(a, sys.Current(), best, k, n);
    NamedBelow(a, sys.Current(), LastOf(sys.Current()), Ancestor(a.tree, best, k), h, x);
    BranchNamed(a, sys.Current(), best, k, n, h, x);
  }

  lemma StepNames(a: Archive, sys: System, e: Event, h: Hash, x: Hash)
    requires a.Valid() && Invariant(a, sys) && a.tree.Knows(e.best)
    requires h in a.tree.headers && a.NoneAbove(h, x) && NamedIn(a, sys.history, h, x)
    ensures Step(a, sys, e).Ok? && Invariant(a, Step(a, sys, e).value)
    ensures NamedIn(a, Step(a, sys, e).value.history, h, x)
  {
    StepKeeps(a, sys, e);
    hide Step;
    hide NamedAt;
    var next := Step(a, sys, e).value;
    forall i | 0 <= i < |next.history|
      ensures NamedAt(a, next.history[i], LastOf(next.history[i]), h, x)
    {
      StepStores(a, sys, e, i);
      if next.history[i] !in sys.history {
        WrittenNamed(a, sys, e.best, next.history[i], h, x);
      }
    }
  }

  /**
   * Over every run: a transaction that is not repeated above its block, and is named by that block to start
   * with, has a `T` row naming the block wherever the block is on the path to `L`.
   */
  lemma {:induction false} RunNames(a: Archive, sys: System, events: seq<Event>, h: Hash, x: Hash)
    requires a.Valid() && Invariant(a, sys)
    requires forall i :: 0 <= i < |events| ==> a.tree.Knows(events[i].best)
    requires h in a.tree.headers && a.NoneAbove(h, x) && NamedIn(a, sys.history, h, x)
    ensures Run(a, sys, events).Ok? && Invariant(a, Run(a, sys, events).value)
    ensures NamedIn(a, Run(a, sys, events).value.history, h, x)
    decreases |events|
  {
    if events != [] {
      StepNames(a, sys, events[0], h, x);
      hide NamedIn;
      RunNames(a, Step(a, sys, events[0]).value, events[1..], h, x);
    }
  }

  /** From an empty database: at every batch boundary each transaction on the path to `L` has a `T` row naming its own block. */
  lemma TransactionsNamed(a: Archive, events: seq<Event>, h: Hash, x: Hash)
    requires a.Valid() && h in a.tree.headers && a.TxidAt(h, x) && a.NoneAbove(h, x)
    requires forall j :: 0 <= j < |events| ==> a.tree.Knows(events[j].best)
    ensures Run(a, START, events).Ok?
    ensures forall i :: 0 <= i < |Run(a, START, events).value.history| ==>
              var s := Run(a, START, events).value.history[i];
              a.tree.Knows(LastOf(s)) && (a.tree.OnPath(h, LastOf(s)) ==> TxKey(x) in s && s[TxKey(x)] == h)
  {
    InitialInvariant(a);
    a.tree.OnPathAt(h, NULL_HASH);
    RunNames(a, START, events, h, x);
    hide Run;
    var history := Run(a, START, events).value.history;
    forall i | 0 <= i < |history|
      ensures a.tree.Knows(LastOf(history[i]))
      ensures a.tree.OnPath(h, LastOf(history[i])) ==> TxKey(x) in history[i] && history[i][TxKey(x)] == h
    {
      assert Consistent(a, history[i]);
      assert NamedAt(a, history[i], LastOf(history[i]), h, x);
    }
  }

  /** At each of these batch boundaries every indexed block is stored with its ancestors. */
  ghost predicate AllClosed(a: Archive, ss: seq<Contents>)
    requires a.Valid()
  {
    forall i :: 0 <= i < |ss| ==> Closed(a, ss[i])
  }

  lemma WrittenClosed(a: Archive, sys: System, best: Hash, s: Contents)
    requires a.Valid() && Invariant(a, sys) && a.tree.Knows(best) && WrittenBy(a, sys, best, s) && Closed(a, sys.Current())
    ensures Closed(a, s)
  {
    hide Closed;
    var k: nat, n: nat :| k < n <= a.tree.Depth(best) && Shares(a.tree, sys.headers, best, k) &&
                s == WriteBlocks(a, sys.Current(), Branch(a, best, k, n));
    assert Consistent(a, sys.Current());
    ForkGood(a, sys.Current(), sys.headers, best, k);
    BranchClosed(a, sys.Current(), best, k, n);
  }

  lemma StepCloses(a: Archive, sys: System, e: Event)
    requires a.Valid() && Invariant(a, sys) && a.tree.Knows(e.best) && AllClosed(a, sys.history)
    ensures Step(a, sys, e).Ok? && Invariant(a, Step(a, sys, e).value)
    ensures AllClosed(a, Step(a, sys, e).value.history)
  {
    StepKeeps(a, sys, e);
    hide Step;
    hide Closed;
    var next := Step(a, sys, e).value;
    forall i | 0 <= i < |next.history|
      ensures Closed(a, next.history[i])
    {
      StepStores(a, sys, e, i);
      if next.history[i] !in sys.history {
        WrittenClosed(a, sys, e.best, next.history[i]);
      }
    }
  }

  /** Over every run the indexed blocks, abandoned ones included, stay closed under ancestors. */
  lemma {:induction false} RunCloses(a: Archive, sys: System, events: seq<Event>)
    requires a.Valid() && Invariant(a, sys) && AllClosed(a, sys.history)
    requires forall i :: 0 <= i < |events| ==> a.tree.Knows(events[i].best)
    ensures Run(a, sys, events).Ok? && Invariant(a, Run(a, sys, events).value)
    ensures AllClosed(a, Run(a, sys, events).value.history)
    decreases |events|
  {
    if events != [] {
      StepCloses(a, sys, events[0]);
      hide AllClosed;
      RunCloses(a, Step(a, sys, events[0]).value, events[1..]);
    }
  }
}
