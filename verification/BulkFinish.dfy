/** The end of a bulk import: the `L` row, restarts from any crash point, and the hand-over to incremental updates. */
module BulkFinish {
  import opened ByteKeys
  import opened Chain
  import opened HeaderChain
  import opened HeaderSync
  import opened Rows
  import opened Store
  import opened BlockStore
  import opened Reload
  import opened IndexRun
  import opened BulkIndex
  import opened BulkPipeline
  import CrashRuns

  /** The last write of the import; it panics when not even the first header of the current chain is indexed. */
  function FinalStore(u: Setup, p: Pipeline): Outcome<Contents> {
    var n := LeadingIndexed(u.current.entries, p.claimed);
    if n == 0 then Panic else Ok(p.store[LAST_KEY := u.current.entries[n - 1].hash])
  }

  // ---------------------------------------------------------------- crash points

  lemma LastUntouched(u: Setup, p: Pipeline)
    requires u.Valid() && BulkPipeline.Invariant(u, p)
    ensures LAST_KEY in p.store <==> LAST_KEY in u.store
    ensures LAST_KEY in p.store ==> p.store[LAST_KEY] == u.store[LAST_KEY]
  {
    assert StoredAt(u, p, LAST_KEY);
    hide Faithful;
    if SomeBlockHas(u.a, AsSet(p.written), LAST_KEY) {
      BlockKeysAreLong(u.a, AsSet(p.written), LAST_KEY);
    }
  }

  /** A crash at any point of the import leaves a database that reloads to the path of the old `L` row. */
  lemma CrashedImportReloads(u: Setup, threads: nat, events: seq<Event>)
    requires u.Valid() && Rooted(u.a, u.store)
    ensures var s := BulkPipeline.Run(u, Initial(u, threads), events).store;
            && Faithful(u.a, s) && Rooted(u.a, s) && LastOf(s) == LastOf(u.store)
            && Reloaded(u.a.tree.hasher, s).Ok?
            && Reloaded(u.a.tree.hasher, s).value.entries == u.a.tree.PathTo(LastOf(u.store))
  {
    RunInvariant(u, threads, events);
    var p := BulkPipeline.Run(u, Initial(u, threads), events);
    LastUntouched(u, p);
    StoredGrows(u.a, u.store, p.store, LastOf(u.store));
    ReloadReturnsPath(u.a, p.store);
  }

  // ---------------------------------------------------------------- the final `L` row

  /** A header of the list is stored with its ancestors exactly when it is among the leading indexed ones. */
  lemma LeadingIsStored(a: Archive, v: Headers, s: Contents, i: nat)
    requires a.Valid() && Synced(a.tree, v) && i < |v.entries|
    ensures v.entries[i].hash in a.tree.headers
    ensures Stored(a, s, v.entries[i].hash) <==> i < LeadingIndexed(v.entries, IndexedBlocks(a, s))
  {
    var t, n := a.tree, LeadingIndexed(v.entries, IndexedBlocks(a, s));
    t.PathShape(v.Tip(), i);
    var h := v.entries[i].hash;
    assert t.PathTo(h) == v.entries[..i + 1];
    if i < n {
      forall j | 0 <= j < |t.PathTo(h)|
        ensures Indexed(s, t.PathTo(h)[j].hash)
      {
        assert t.PathTo(h)[j] == v.entries[j];
        assert v.entries[j].hash in IndexedBlocks(a, s);
      }
    } else {
      assert t.PathTo(h)[n] == v.entries[n];
      t.PathShape(v.Tip(), n);
    }
  }

  /** What the last write leaves; it panics exactly when the first header of the current chain is not indexed. */
  lemma FinalFaithful(u: Setup, p: Pipeline)
    requires u.Valid() && BulkPipeline.Invariant(u, p) && Finished(u, p)
    ensures FinalStore(u, p).Ok? <==> u.current.entries != [] && u.current.entries[0].hash in IndexedBlocks(u.a, p.store)
    ensures FinalStore(u, p).Ok? ==>
              var s := FinalStore(u, p).value;
              && Faithful(u.a, s) && IndexedBlocks(u.a, s) == p.claimed == u.Before() + u.Wanted()
              && LAST_KEY in s && s[LAST_KEY] == LastOf(s) == u.current.entries[LeadingIndexed(u.current.entries, p.claimed) - 1].hash
  {
    hide Setup.Wanted;
    hide Setup.Before;
    FinishedExactlyOnce(u, p);
    var n := LeadingIndexed(u.current.entries, p.claimed);
    if n > 0 {
      MarkerFaithful(u.a, p.store, LAST_KEY, u.current.entries[n - 1].hash);
    }
  }

  /** `h` is the highest header of the list that is stored with all its ancestors. */
  ghost predicate HighestStored(a: Archive, v: Headers, s: Contents, h: Hash)
    requires a.Valid() && Synced(a.tree, v)
  {
    && h in a.tree.headers && a.tree.OnPath(h, v.Tip())
    && forall g :: g in a.tree.headers && a.tree.OnPath(g, v.Tip()) ==> (Stored(a, s, g) <==> a.tree.OnPath(g, h))
  }

  lemma LeadingBelow(a: Archive, v: Headers, s: Contents, g: Hash, n: nat, h: Hash)
    requires a.Valid() && Synced(a.tree, v) && 0 < n <= |v.entries| && n == LeadingIndexed(v.entries, IndexedBlocks(a, s))
    requires h in a.tree.headers && a.tree.PathTo(h) == v.entries[..n]
    requires g in a.tree.headers && a.tree.OnPath(g, v.Tip())
    ensures Stored(a, s, g) <==> a.tree.OnPath(g, h)
  {
    hide Stored;
    hide LeadingIndexed;
    hide IndexedBlocks;
    var t := a.tree;
    t.OnPathAt(g, v.Tip());
    t.OnPathAt(g, h);
    LeadingIsStored(a, v, s, t.heights[g]);
    assert t.heights[g] < n ==> t.PathTo(h)[t.heights[g]] == v.entries[t.heights[g]];
  }

  lemma LeadingIsHighest(a: Archive, v: Headers, s: Contents)
    requires a.Valid() && Synced(a.tree, v) && LeadingIndexed(v.entries, IndexedBlocks(a, s)) > 0
    ensures v.entries[LeadingIndexed(v.entries, IndexedBlocks(a, s)) - 1].hash in a.tree.headers
    ensures HighestStored(a, v, s, v.entries[LeadingIndexed(v.entries, IndexedBlocks(a, s)) - 1].hash)
    ensures Stored(a, s, v.entries[LeadingIndexed(v.entries, IndexedBlocks(a, s)) - 1].hash)
    ensures a.tree.PathTo(v.entries[LeadingIndexed(v.entries, IndexedBlocks(a, s)) - 1].hash) == v.entries[..LeadingIndexed(v.entries, IndexedBlocks(a, s))]
  {
    hide Stored;
    hide LeadingIndexed;
    hide IndexedBlocks;
    var t, n := a.tree, LeadingIndexed(v.entries, IndexedBlocks(a, s));
    var h := v.entries[n - 1].hash;
    t.PathShape(v.Tip(), n - 1);
    LeadingIsStored(a, v, s, n - 1);
    forall g | g in t.headers && t.OnPath(g, v.Tip())
      ensures Stored(a, s, g) <==> t.OnPath(g, h)
    {
      LeadingBelow(a, v, s, g, n, h);
    }
  }

  /** What the import leaves: `L` is the highest header of the current chain stored with all its ancestors. */
  lemma FinalLast(u: Setup, p: Pipeline)
    requires u.Valid() && BulkPipeline.Invariant(u, p) && Finished(u, p) && FinalStore(u, p).Ok?
    ensures var s := FinalStore(u, p).value;
            && Faithful(u.a, s) && Rooted(u.a, s)
            && HighestStored(u.a, u.current, s, LastOf(s))
            && u.a.tree.PathTo(LastOf(s)) == u.current.entries[..LeadingIndexed(u.current.entries, p.claimed)]
  {
    hide Faithful;
    hide LeadingIndexed;
    hide BulkPipeline.Invariant;
    hide HighestStored;
    hide Setup.Wanted;
    hide Stored;
    hide Synced;
    FinalFaithful(u, p);
    LeadingIsHighest(u.a, u.current, FinalStore(u, p).value);
  }

  /** The finished database reloads to the leading indexed headers of the current chain. */
  lemma FinalReloads(u: Setup, p: Pipeline)
    requires u.Valid() && BulkPipeline.Invariant(u, p) && Finished(u, p) && FinalStore(u, p).Ok?
    ensures var s := FinalStore(u, p).value;
            && Faithful(u.a, s) && Rooted(u.a, s)
            && Reloaded(u.a.tree.hasher, s).Ok?
            && Reloaded(u.a.tree.hasher, s).value.entries == u.current.entries[..LeadingIndexed(u.current.entries, p.claimed)]
  {
    hide LeadingIndexed;
    hide BulkPipeline.Invariant;
    FinalLast(u, p);
    ReloadReturnsPath(u.a, FinalStore(u, p).value);
  }

  // ---------------------------------------------------------------- which block a `T` row names

  lemma PathsCompare(t: Tree, g: Hash, h: Hash, tip: Hash)
    requires t.Valid() && t.Knows(g) && t.Knows(h) && t.Knows(tip) && t.OnPath(g, tip) && t.OnPath(h, tip)
    ensures t.OnPath(g, h) || t.OnPath(h, g)
  {
    var p := t.PathTo(tip);
    assert t.PathTo(g) == p[..|t.PathTo(g)|] && t.PathTo(h) == p[..|t.PathTo(h)|];
  }

  /** No other block of the current chain holds the transaction id `x`. */
  ghost predicate AloneOnChain(u: Setup, h: Hash, x: Hash)
    requires u.a.Valid()
  {
    forall g :: g in u.a.tree.headers && u.OnChain(g) && u.a.TxidAt(g, x) ==> g == h
  }

  /** The database held a `T` row for `x` naming `h` before the import. */
  ghost predicate NamedBefore(u: Setup, h: Hash, x: Hash) {
    TxKey(x) in u.store && u.store[TxKey(x)] == h
  }

  /** After an import an indexed block names its transaction exactly when the import wrote the block or it did so before. */
  lemma ImportNames(u: Setup, p: Pipeline, h: Hash, x: Hash)
    requires u.Valid() && BulkPipeline.Invariant(u, p) && Finished(u, p)
    requires h in IndexedBlocks(u.a, p.store) && u.a.TxidAt(h, x) && AloneOnChain(u, h, x)
    ensures TxKey(x) in p.store
    ensures p.store[TxKey(x)] == h <==> (h in u.Before() ==> NamedBefore(u, h, x))
    ensures h in u.Before() ==> TxKey(x) in u.store && p.store[TxKey(x)] == u.store[TxKey(x)]
  {
    var k := TxKey(x);
    FinishedExactlyOnce(u, p);
    TxKeyOfBlock(u.a, h, x);
    assert KeyAccounted(u.a, u.store, k);
    assert h in u.Before() ==> SomeBlockHas(u.a, u.Before(), k);
    hide Faithful;
    assert StoredAt(u, p, k);
    if SomeBlockHas(u.a, AsSet(p.written), k) {
      var g :| g in p.written && Row(k, p.store[k]) in u.a.RowsAt(g);
      RowKinds(u.a, g, k, p.store[k]);
      assert u.a.TxidAt(g, x) && p.store[k] == g && g in u.Wanted();
    } else {
      assert h in u.Before();
    }
  }

  /** A block on the path to the final `L` has been indexed, and the `L` row leaves its `T` rows alone. */
  lemma FinalIndexed(u: Setup, p: Pipeline, h: Hash)
    requires u.Valid() && BulkPipeline.Invariant(u, p) && Finished(u, p) && FinalStore(u, p).Ok?
    requires h in u.a.tree.headers
    ensures u.a.tree.Knows(LastOf(FinalStore(u, p).value))
    ensures u.a.tree.OnPath(h, LastOf(FinalStore(u, p).value)) ==> h in IndexedBlocks(u.a, p.store)
    ensures forall x: Hash :: TxKey(x) in FinalStore(u, p).value <==> TxKey(x) in p.store
    ensures forall x: Hash :: TxKey(x) in p.store ==> FinalStore(u, p).value[TxKey(x)] == p.store[TxKey(x)]
  {
    var s := FinalStore(u, p).value;
    hide BulkPipeline.Invariant;
    hide LeadingIndexed;
    FinalLast(u, p);
    hide Faithful;
    hide HighestStored;
    assert |BlockKey(h)| != |LAST_KEY| && forall x: Hash :: |TxKey(x)| != |LAST_KEY|;
    if u.a.tree.OnPath(h, LastOf(s)) {
      u.a.tree.OnPathAt(h, LastOf(s));
      assert Indexed(s, h);
    }
  }

  /** On the path to the final `L`, which blocks name their transactions. */
  lemma ImportNamedAt(u: Setup, p: Pipeline, h: Hash, x: Hash)
    requires u.Valid() && BulkPipeline.Invariant(u, p) && Finished(u, p) && FinalStore(u, p).Ok?
    requires h in u.a.tree.headers && AloneOnChain(u, h, x)
    ensures var s := FinalStore(u, p).value;
            && u.a.tree.Knows(LastOf(s))
            && (NamedAt(u.a, s, LastOf(s), h, x) <==>
                (h in u.Before() && u.a.tree.OnPath(h, LastOf(s)) && u.a.TxidAt(h, x) ==> NamedBefore(u, h, x)))
  {
    FinalIndexed(u, p, h);
    hide BulkPipeline.Invariant;
    hide FinalStore;
    hide Setup.Valid;
    hide AloneOnChain;
    hide NamedBefore;
    if h in IndexedBlocks(u.a, p.store) && u.a.TxidAt(h, x) {
      ImportNames(u, p, h, x);
    }
  }

  lemma ChainIsAlone(u: Setup, h: Hash, x: Hash)
    requires u.Valid() && u.a.NoRepeats() && h in u.a.tree.headers && u.a.TxidAt(h, x)
    requires u.a.tree.OnPath(h, u.current.Tip())
    ensures AloneOnChain(u, h, x)
  {
    hide Faithful;
    forall g | g in u.a.tree.headers && u.OnChain(g) && u.a.TxidAt(g, x)
      ensures g == h
    {
      LookupIsSearch(u.a.tree, u.current, g);
      PathsCompare(u.a.tree, g, h, u.current.Tip());
      assert u.a.NoRepeatAt(g, h, x) && u.a.NoRepeatAt(h, g, x);
    }
  }

  /** `h` is a block indexed before the import, on the path to the final `L`, and holds `x`. */
  ghost predicate OldOnPath(u: Setup, p: Pipeline, h: Hash, x: Hash)
    requires u.a.Valid() && FinalStore(u, p).Ok? && u.a.tree.Knows(LastOf(FinalStore(u, p).value))
  {
    h in u.Before() && u.a.tree.OnPath(h, LastOf(FinalStore(u, p).value)) && u.a.TxidAt(h, x)
  }

  /**
   * Whatever the database held before: when no txid repeats on a path, the finished database names every
   * transaction on the path to `L` by its own block if and only if it did so before for the blocks that
   * this import found already indexed.
   */
  lemma ImportNamed(u: Setup, p: Pipeline)
    requires u.Valid() && u.a.NoRepeats()
    requires BulkPipeline.Invariant(u, p) && Finished(u, p) && FinalStore(u, p).Ok?
    ensures u.a.tree.Knows(LastOf(FinalStore(u, p).value))
    ensures Named(u.a, FinalStore(u, p).value, LastOf(FinalStore(u, p).value)) <==>
            forall h, x: Hash :: OldOnPath(u, p, h, x) ==> NamedBefore(u, h, x)
  {
    FinalLast(u, p);
    hide Faithful;
    hide BulkPipeline.Invariant;
    hide NamedBefore;
    var s := FinalStore(u, p).value;
    forall h, x: Hash | h in u.a.tree.headers
      ensures NamedAt(u.a, s, LastOf(s), h, x) <==> (OldOnPath(u, p, h, x) ==> NamedBefore(u, h, x))
    {
      if u.a.tree.OnPath(h, LastOf(s)) && u.a.TxidAt(h, x) {
        OnPathTransitive(u.a.tree, h, LastOf(s), u.current.Tip());
        ChainIsAlone(u, h, x);
        ImportNamedAt(u, p, h, x);
      }
    }
    hide NamedAt;
    if Named(u.a, s, LastOf(s)) {
      forall h, x: Hash | OldOnPath(u, p, h, x)
        ensures NamedBefore(u, h, x)
      {
        assert NamedAt(u.a, s, LastOf(s), h, x);
      }
    }
  }

  /** An earlier import of the same chain, cut off anywhere, has named its transactions well. */
  lemma ChainNamedBefore(u: Setup, h: Hash, x: Hash)
    requires u.Valid() && h in u.Before() && u.a.TxidAt(h, x) && AloneOnChain(u, h, x)
    requires forall g :: g in u.Before() ==> u.OnChain(g)
    ensures NamedBefore(u, h, x)
  {
    TxKeyOfBlock(u.a, h, x);
    assert KeyAccounted(u.a, u.store, TxKey(x)) && NamesBlock(u.a, u.store, x);
    assert SomeBlockHas(u.a, u.Before(), TxKey(x));
    var g :| g in u.a.tree.headers && Indexed(u.store, g) && u.a.TxidAt(g, x) && u.store[TxKey(x)] == g;
    assert g in u.Before();
  }

  /** So an import resumed on the same chain, in particular one into an empty database, names every transaction well. */
  lemma SameChainNamed(u: Setup, p: Pipeline)
    requires u.Valid() && u.a.NoRepeats()
    requires BulkPipeline.Invariant(u, p) && Finished(u, p) && FinalStore(u, p).Ok?
    requires forall g :: g in u.Before() ==> u.OnChain(g)
    ensures u.a.tree.Knows(LastOf(FinalStore(u, p).value))
    ensures Named(u.a, FinalStore(u, p).value, LastOf(FinalStore(u, p).value))
  {
    FinalLast(u, p);
    ImportNamed(u, p);
    hide BulkPipeline.Invariant;
    hide Faithful;
    hide Named;
    forall h, x: Hash | OldOnPath(u, p, h, x)
      ensures NamedBefore(u, h, x)
    {
      OnPathTransitive(u.a.tree, h, LastOf(FinalStore(u, p).value), u.current.Tip());
      ChainIsAlone(u, h, x);
      ChainNamedBefore(u, h, x);
    }
  }

  /**
   * On another chain in between it goes wrong: an import indexes `h`, a second one the block `g` of another
   * branch with the same transaction, and a third one, back on the first chain, skips `h` as indexed already.
   * The `T` row goes on naming `g`.
   */
  lemma OtherChainMisnames(
    u1: Setup, p1: Pipeline, u2: Setup, p2: Pipeline, u3: Setup, p3: Pipeline, g: Hash, h: Hash, x: Hash)
    requires u1.Valid() && BulkPipeline.Invariant(u1, p1) && Finished(u1, p1)
    requires u2.Valid() && BulkPipeline.Invariant(u2, p2) && Finished(u2, p2) && u2.a == u1.a && u2.store == p1.store
    requires u3.Valid() && BulkPipeline.Invariant(u3, p3) && Finished(u3, p3) && u3.a == u1.a && u3.store == p2.store
    requires h in u1.Wanted() && u1.a.TxidAt(h, x) && AloneOnChain(u3, h, x)
    requires g in u2.Wanted() && u1.a.TxidAt(g, x) && AloneOnChain(u2, g, x)
    ensures TxKey(x) in p3.store && p3.store[TxKey(x)] == g
    ensures h in IndexedBlocks(u1.a, p3.store)
  {
    FinishedExactlyOnce(u1, p1);
    FinishedExactlyOnce(u2, p2);
    FinishedExactlyOnce(u3, p3);
    assert h in u2.Before() && h in u3.Before();
    hide BulkPipeline.Invariant;
    hide Setup.Valid;
    ImportNames(u2, p2, g, x);
    ImportNames(u3, p3, h, x);
  }

  // ---------------------------------------------------------------- into incremental updates

  /** `sys` is the finished database and the list reloaded from it, with which the updates go on. */
  ghost predicate HandsOver(u: Setup, p: Pipeline, sys: CrashRuns.System) {
    && FinalStore(u, p).Ok? && sys.history == [FinalStore(u, p).value]
    && Reloaded(u.a.tree.hasher, FinalStore(u, p).value) == Ok(sys.headers)
  }

  /** A finished import, over whatever database, hands over a system from which every run of updates and crashes keeps its invariant. */
  lemma ImportStartsRuns(u: Setup, p: Pipeline) returns (sys: CrashRuns.System)
    requires u.Valid() && BulkPipeline.Invariant(u, p) && Finished(u, p) && FinalStore(u, p).Ok?
    ensures HandsOver(u, p, sys) && CrashRuns.Invariant(u.a, sys)
  {
    hide BulkPipeline.Invariant;
    FinalReloads(u, p);
    StoreStartsRuns(u.a, FinalStore(u, p).value);
    sys := CrashRuns.System([FinalStore(u, p).value], Reloaded(u.a.tree.hasher, FinalStore(u, p).value).value);
  }

  /**
   * What a finished import over whatever database promises to all later runs: none of them panics; and a
   * transaction that occurs once on the chain, and not again above its block, is named by that block
   * throughout, if the import wrote the block or the block named it before.
   */
  lemma ImportThenNames(u: Setup, p: Pipeline, sys: CrashRuns.System, events: seq<CrashRuns.Event>, h: Hash, x: Hash)
    requires u.Valid() && BulkPipeline.Invariant(u, p) && Finished(u, p)
    requires HandsOver(u, p, sys) && CrashRuns.Invariant(u.a, sys)
    requires forall i :: 0 <= i < |events| ==> u.a.tree.Knows(events[i].best)
    requires h in u.a.tree.headers && u.a.NoneAbove(h, x) && AloneOnChain(u, h, x)
    requires h in u.Before() ==> NamedBefore(u, h, x)
    ensures CrashRuns.Run(u.a, sys, events).Ok? && CrashRuns.Invariant(u.a, CrashRuns.Run(u.a, sys, events).value)
    ensures CrashRuns.NamedIn(u.a, CrashRuns.Run(u.a, sys, events).value.history, h, x)
  {
    hide BulkPipeline.Invariant;
    ImportNamedAt(u, p, h, x);
    CrashRuns.RunNames(u.a, sys, events, h, x);
  }

  /**
   * An import that indexes the whole current chain leaves the indexed blocks closed under ancestors, if the
   * blocks indexed before lie on that chain or were stored with their ancestors.
   */
  lemma ImportCloses(u: Setup, p: Pipeline)
    requires u.Valid() && BulkPipeline.Invariant(u, p) && Finished(u, p) && FinalStore(u, p).Ok?
    requires LeadingIndexed(u.current.entries, p.claimed) == |u.current.entries|
    requires forall g :: g in u.Before() ==> u.OnChain(g) || Stored(u.a, u.store, g)
    ensures Closed(u.a, FinalStore(u, p).value)
  {
    var s := FinalStore(u, p).value;
    FinalFaithful(u, p);
    FinalLast(u, p);
    hide Faithful;
    hide BulkPipeline.Invariant;
    hide FinalStore;
    hide LeadingIndexed;
    hide Stored;
    assert u.a.tree.PathTo(LastOf(s)) == u.a.tree.PathTo(u.current.Tip());
    forall h | h in u.a.tree.headers && Indexed(s, h)
      ensures Stored(u.a, s, h)
    {
      assert h in IndexedBlocks(u.a, s);
      if u.OnChain(h) {
        LookupIsSearch(u.a.tree, u.current, h);
      } else {
        assert h in u.Before();
        StoredGrows(u.a, u.store, s, h);
      }
    }
  }

  /** A consistent database and the list reloaded from it are such a state. */
  lemma StoreStartsRuns(a: Archive, s: Contents)
    requires a.Valid() && Consistent(a, s)
    ensures Reloaded(a.tree.hasher, s).Ok?
    ensures CrashRuns.Invariant(a, CrashRuns.System([s], Reloaded(a.tree.hasher, s).value))
  {
    CrashRuns.RestartKeeps(a, [s], 0);
    assert [s][..1] == [s];
  }

  /** The marker of a finished full compaction does not disturb a consistent database. */
  lemma CompactionKeeps(a: Archive, s: Contents)
    requires a.Valid() && Consistent(a, s)
    ensures Consistent(a, s[COMPACTED_KEY := []]) && LastOf(s[COMPACTED_KEY := []]) == LastOf(s)
  {
    var s' := s[COMPACTED_KEY := []];
    MarkerFaithful(a, s, COMPACTED_KEY, []);
    hide Faithful;
    assert LAST_KEY != COMPACTED_KEY && LastOf(s') == LastOf(s);
    StoredGrows(a, s, s', LastOf(s));
  }
}
