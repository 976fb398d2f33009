/** Fetching, ordering and applying headers keeps the list equal to the node's genesis-to-tip path. */
module HeaderSync {
  import opened ByteKeys
  import opened Chain
  import opened HeaderChain
  import opened Daemon

  /**
   * What every reachable header list satisfies: the vector is a path of the tree, and each map entry,
   * stale ones included, holds the height its block has in the tree.
   */
  ghost predicate Synced(t: Tree, v: Headers)
    requires t.Valid()
  {
    && t.Knows(v.Tip())
    && v.entries == t.PathTo(v.Tip())
    && (forall h :: h in v.heights ==> h in t.headers && v.heights[h] == t.heights[h])
    && (forall i :: 0 <= i < |v.entries| ==> v.entries[i].hash in v.heights)
  }

  lemma EmptySynced(t: Tree)
    requires t.Valid()
    ensures Synced(t, EMPTY)
  {
  }

  // ---------------------------------------------------------------- lookups

  /** Linear search from the front. */
  function Search(es: seq<HeaderEntry>, h: Hash): Option<HeaderEntry> {
    if es == [] then None
    else if es[0].hash == h then Some(es[0])
    else Search(es[1..], h)
  }

  lemma {:induction false} SearchFinds(es: seq<HeaderEntry>, h: Hash, k: nat)
    requires k < |es| && es[k].hash == h
    requires forall i :: 0 <= i < |es| && es[i].hash == h ==> i == k
    ensures Search(es, h) == Some(es[k])
  {
    if k > 0 {
      assert es[0].hash != h;
      SearchFinds(es[1..], h, k - 1);
    }
  }

  lemma {:induction false} SearchMisses(es: seq<HeaderEntry>, h: Hash)
    requires forall i :: 0 <= i < |es| ==> es[i].hash != h
    ensures Search(es, h) == None
  {
    if es != [] {
      SearchMisses(es[1..], h);
    }
  }

  /** `header_by_blockhash` through the map with its stale entries is a search of the vector. */
  lemma LookupIsSearch(t: Tree, v: Headers, h: Hash)
    requires t.Valid() && Synced(t, v)
    ensures v.Lookup(h) == Search(v.entries, h)
    ensures v.Lookup(h).Some? <==> h != NULL_HASH && t.Knows(h) && t.OnPath(h, v.Tip())
    ensures v.Lookup(h).Some? ==> v.Lookup(h).value == t.Entry(h)
    ensures v.Lookup(h).Some? ==> v.entries[..t.Depth(h)] == t.PathTo(h)
  {
    t.PathShapeAll(v.Tip());
    if v.Lookup(h).Some? {
      var k := v.heights[h];
      t.PathShape(v.Tip(), k);
      SearchFinds(v.entries, h, k);
    } else {
      SearchMisses(v.entries, h);
    }
    if t.Knows(h) {
      t.OnPathAt(h, v.Tip());
    }
  }

  /** Every entry sits at its own height, so `header_by_height` never fails its assertion. */
  lemma HeightsArePositions(t: Tree, v: Headers, i: nat)
    requires t.Valid() && Synced(t, v)
    ensures v.ByHeight(i) == Ok(if i < |v.entries| then Some(v.entries[i]) else None)
  {
    t.PathShapeAll(v.Tip());
  }

  /** Whatever the list holds, an entry found by height is one of the list and has that height. */
  lemma FoundAtHeight(v: Headers, i: nat)
    ensures v.ByHeight(i) != Err
    ensures v.ByHeight(i).Ok? && v.ByHeight(i).value.Some? ==> v.ByHeight(i).value.value in v.entries && v.ByHeight(i).value.value.height == i
    ensures v.ByHeight(i) == Ok(None) <==> i >= |v.entries|
  {
  }

  /** Comparing last entries decides equality of whole lists. */
  lemma EqualsIsListEquality(t: Tree, v: Headers, w: Headers)
    requires t.Valid() && Synced(t, v) && Synced(t, w)
    ensures v.Equals(w) <==> v.entries == w.entries
  {
  }

  /** The list of every run is linked, and its map knows each entry. */
  lemma SyncedIsListed(t: Tree, v: Headers)
    requires t.Valid() && Synced(t, v)
    ensures Listed(v)
  {
    forall i | 0 <= i < |v.entries|
      ensures LinkedAt(v.entries, i) && v.heights[v.entries[i].hash] == i
    {
      t.PathShape(v.Tip(), i);
    }
  }

  // ---------------------------------------------------------------- one update

  /** What `get_new_headers` returns. */
  ghost function Fetched(node: Node, v: Headers, tip: Hash): Outcome<seq<Header>>
    requires node.Valid()
  {
    if v.entries == [] then AllHeaders(node, tip)
    else if node.tree.Knows(tip) then Ok(WalkBack(node.tree, v, tip))
    else if v.Lookup(tip).Some? then Ok([])
    else Err
  }

  /** `order(get_new_headers(..))` */
  ghost function NewEntries(node: Node, v: Headers, tip: Hash): Outcome<seq<HeaderEntry>>
    requires node.Valid()
  {
    match Fetched(node, v, tip)
    case Ok(hs) => v.Order(node.tree.hasher, hs)
    case Err => Err
    case Panic => Panic
  }

  /** Fetch, `order`, `apply`. */
  ghost function Sync(node: Node, v: Headers, tip: Hash): Outcome<Headers>
    requires node.Valid()
  {
    match NewEntries(node, v, tip)
    case Ok(es) => if v.ApplyAccepts(es, tip) then Ok(v.Applied(es, tip)) else Panic
    case Err => Err
    case Panic => Panic
  }

  /** Height below which the path to `h` is already in the list. */
  ghost function ForkDepth(t: Tree, v: Headers, h: Hash): (k: nat)
    requires t.Valid() && t.Knows(h)
    ensures k <= t.Depth(h)
    decreases t.Depth(h)
  {
    if h == NULL_HASH || v.Lookup(h).Some? then t.Depth(h) else ForkDepth(t, v, t.Parent(h))
  }

  lemma HeadersOfPush(es: seq<HeaderEntry>, e: HeaderEntry)
    ensures HeadersOf(es + [e]) == HeadersOf(es) + [e.header]
  {
  }

  /** The walk back collects the path above the fork. */
  lemma {:induction false} WalkBackIsBranch(t: Tree, v: Headers, h: Hash)
    requires t.Valid() && t.Knows(h)
    ensures WalkBack(t, v, h) == HeadersOf(t.PathTo(h)[ForkDepth(t, v, h)..])
    decreases t.Depth(h)
  {
    if h != NULL_HASH && v.Lookup(h).None? {
      var k := ForkDepth(t, v, h);
      var parent := t.Parent(h);
      WalkBackIsBranch(t, v, parent);
      assert t.PathTo(h)[k..] == t.PathTo(parent)[k..] + [t.Entry(h)];
      HeadersOfPush(t.PathTo(parent)[k..], t.Entry(h));
    }
  }

  /** The path up to the fork is shared with the list. */
  lemma {:induction false} ForkIsShared(t: Tree, v: Headers, h: Hash)
    requires t.Valid() && Synced(t, v) && t.Knows(h)
    ensures Shares(t, v, h, ForkDepth(t, v, h))
    decreases t.Depth(h)
  {
    if h == NULL_HASH {
    } else if v.Lookup(h).Some? {
      LookupIsSearch(t, v, h);
    } else {
      var parent := t.Parent(h);
      ForkIsShared(t, v, parent);
    }
  }

  /** The list and the path to `h` have their first `k` entries in common. */
  ghost predicate Shares(t: Tree, v: Headers, h: Hash, k: nat)
    requires t.Valid() && t.Knows(h)
  {
    && k <= |v.entries| && k <= |t.PathTo(h)|
    && forall i :: 0 <= i < k ==> v.entries[i] == t.PathTo(h)[i]
  }

  /** `order` turns the fetched branch back into the entries of the path. */
  lemma OrderedBranch(t: Tree, v: Headers, tip: Hash, k: nat)
    requires t.Valid() && Synced(t, v) && t.Knows(tip) && Shares(t, v, tip, k)
    ensures v.Order(t.hasher, HeadersOf(t.PathTo(tip)[k..])) == Ok(t.PathTo(tip)[k..])
  {
    PathIsChain(t, tip);
    ChainSuffix(t.hasher, t.PathTo(tip), k);
    if k > 0 {
      LookupOnPath(t, v, k - 1);
    }
  }

  /** A suffix of a chain is hash-linked, hangs off the entry below it, and numbering its headers restores it. */
  lemma ChainSuffix(hasher: Header -> Hash, p: seq<HeaderEntry>, k: nat)
    requires IsChain(hasher, p) && k <= |p|
    ensures HashLinked(hasher, HeadersOf(p[k..]))
    ensures Numbered(hasher, HeadersOf(p[k..]), k) == p[k..]
    ensures k < |p| ==> p[k].header.prev == if k == 0 then NULL_HASH else p[k - 1].hash
    ensures Consecutive(p[k..])
  {
    assert k < |p| ==> ChainAt(hasher, p, k);
    SuffixLinked(hasher, p, k);
    SuffixNumbered(hasher, p, k);
  }

  lemma SuffixLinked(hasher: Header -> Hash, p: seq<HeaderEntry>, k: nat)
    requires IsChain(hasher, p) && k <= |p|
    ensures HashLinked(hasher, HeadersOf(p[k..])) && Consecutive(p[k..])
  {
    var es := p[k..];
    forall i | 1 <= i < |es|
      ensures HashLinkedAt(hasher, HeadersOf(es), i) && ConsecutiveAt(es, i)
    {
      assert es[i] == p[k + i] && es[i - 1] == p[k + i - 1];
      assert ChainAt(hasher, p, k + i) && ChainAt(hasher, p, k + i - 1);
    }
  }

  lemma SuffixNumbered(hasher: Header -> Hash, p: seq<HeaderEntry>, k: nat)
    requires IsChain(hasher, p) && k <= |p|
    ensures Numbered(hasher, HeadersOf(p[k..]), k) == p[k..]
  {
    var es := p[k..];
    forall i | 0 <= i < |es|
      ensures Numbered(hasher, HeadersOf(es), k)[i] == es[i]
    {
      assert es[i] == p[k + i];
      assert ChainAt(hasher, p, k + i);
    }
  }

  lemma LookupOnPath(t: Tree, v: Headers, i: nat)
    requires t.Valid() && Synced(t, v) && i < |v.entries|
    ensures v.Lookup(v.entries[i].hash) == Some(v.entries[i])
    ensures v.entries[i].hash != NULL_HASH && v.entries[i].height == i
  {
    t.PathShape(v.Tip(), i);
  }

  lemma {:induction false} InsertAllFrom(t: Tree, m: map<Hash, nat>, es: seq<HeaderEntry>)
    requires t.Valid()
    requires forall h :: h in m ==> h in t.headers && m[h] == t.heights[h]
    requires forall i :: 0 <= i < |es| ==> es[i].hash in t.headers && es[i] == t.Entry(es[i].hash)
    ensures forall h :: h in InsertAll(m, es) ==> h in t.headers && InsertAll(m, es)[h] == t.heights[h]
    ensures forall h :: h in m ==> h in InsertAll(m, es)
    ensures forall i :: 0 <= i < |es| ==> es[i].hash in InsertAll(m, es)
  {
    if es != [] {
      var n := |es| - 1;
      InsertAllFrom(t, m, es[..n]);
      assert forall i :: 0 <= i < n ==> es[..n][i] == es[i];
    }
  }

  /** `apply` accepts a branch growing from a shared prefix. */
  lemma BranchAccepted(t: Tree, v: Headers, tip: Hash, k: nat)
    requires t.Valid() && Synced(t, v) && t.Knows(tip) && Shares(t, v, tip, k)
    ensures v.ApplyAccepts(t.PathTo(tip)[k..], tip)
    ensures tip != NULL_HASH ==> v.Kept(t.PathTo(tip)[k..], tip) == k
  {
    var p := t.PathTo(tip);
    if tip != NULL_HASH {
      PathIsChain(t, tip);
      ChainSuffix(t.hasher, p, k);
      t.PathShapeAll(tip);
      if k == |p| {
        LookupOnPath(t, v, k - 1);
      }
    }
  }

  /** Applying such a branch leaves the path to the tip. */
  lemma AppliedBranch(t: Tree, v: Headers, tip: Hash, k: nat)
    requires t.Valid() && Synced(t, v) && t.Knows(tip) && Shares(t, v, tip, k)
    ensures v.ApplyAccepts(t.PathTo(tip)[k..], tip)
    ensures v.Applied(t.PathTo(tip)[k..], tip).entries == t.PathTo(tip)
    ensures Synced(t, v.Applied(t.PathTo(tip)[k..], tip))
  {
    BranchAccepted(t, v, tip, k);
    if tip != NULL_HASH {
      SharedPrefixSplit(t, v, tip, k);
      BranchSynced(t, v, tip, k);
    }
  }

  lemma SharedPrefixSplit(t: Tree, v: Headers, tip: Hash, k: nat)
    requires t.Valid() && t.Knows(tip) && Shares(t, v, tip, k)
    ensures v.entries[..k] + t.PathTo(tip)[k..] == t.PathTo(tip)
  {
  }

  lemma BranchSynced(t: Tree, v: Headers, tip: Hash, k: nat)
    requires t.Valid() && Synced(t, v) && t.Knows(tip) && Shares(t, v, tip, k)
    ensures Synced(t, Headers(t.PathTo(tip), InsertAll(v.heights, t.PathTo(tip)[k..])))
  {
    t.PathShapeAll(tip);
    InsertAllFrom(t, v.heights, t.PathTo(tip)[k..]);
    AllRecorded(v, t.PathTo(tip), k);
  }

  lemma AllRecorded(v: Headers, p: seq<HeaderEntry>, k: nat)
    requires k <= |p| && k <= |v.entries|
    requires forall i :: 0 <= i < k ==> v.entries[i] == p[i]
    requires forall i :: 0 <= i < |v.entries| ==> v.entries[i].hash in v.heights
    requires forall h :: h in v.heights ==> h in InsertAll(v.heights, p[k..])
    requires forall i :: 0 <= i < |p[k..]| ==> p[k..][i].hash in InsertAll(v.heights, p[k..])
    ensures forall i :: 0 <= i < |p| ==> p[i].hash in InsertAll(v.heights, p[k..])
  {
    forall i | 0 <= i < |p|
      ensures p[i].hash in InsertAll(v.heights, p[k..])
    {
      assert i < k ==> p[i] == v.entries[i];
      assert i >= k ==> p[i] == p[k..][i - k];
    }
  }

  lemma {:induction false} EmptyWalk(t: Tree, v: Headers, h: Hash)
    requires t.Valid() && Synced(t, v) && t.Knows(h) && v.entries == []
    ensures ForkDepth(t, v, h) == 0
    decreases t.Depth(h)
  {
    if h != NULL_HASH {
      EmptyWalk(t, v, t.Parent(h));
    }
  }

  /** Whether an update with this tip goes through, decided before it starts. */
  ghost predicate Reachable(node: Node, v: Headers, tip: Hash)
    requires node.Valid()
  {
    if v.entries == [] then tip in node.tree.headers && node.tree.OnPath(tip, node.best)
    else node.tree.Knows(tip)
  }

  /** The entries an update hands to `apply` are the path to the tip above the fork. */
  lemma NewEntriesAreBranch(node: Node, v: Headers, tip: Hash)
    requires node.Valid() && Synced(node.tree, v) && Reachable(node, v, tip)
    ensures Shares(node.tree, v, tip, ForkDepth(node.tree, v, tip))
    ensures NewEntries(node, v, tip) == Ok(node.tree.PathTo(tip)[ForkDepth(node.tree, v, tip)..])
  {
    var t := node.tree;
    WalkBackIsBranch(t, v, tip);
    ForkIsShared(t, v, tip);
    if v.entries == [] {
      EmptyWalk(t, v, tip);
      assert t.PathTo(tip)[0..] == t.PathTo(tip);
    }
    OrderedBranch(t, v, tip, ForkDepth(t, v, tip));
  }

  /**
   * One update, for every tip: it succeeds exactly when the tip is reachable, never panics on a
   * known tip of a non-empty list, and leaves exactly the genesis-to-tip path. This covers extending,
   * reorganising, trimming, un-trimming and returning to an abandoned branch.
   */
  lemma SyncStep(node: Node, v: Headers, tip: Hash)
    requires node.Valid() && Synced(node.tree, v)
    ensures Sync(node, v, tip).Ok? <==> Reachable(node, v, tip)
    ensures v.entries != [] && !node.tree.Knows(tip) ==> Sync(node, v, tip) == Err
    ensures Sync(node, v, tip).Ok? ==>
              && Synced(node.tree, Sync(node, v, tip).value)
              && Sync(node, v, tip).value.entries == node.tree.PathTo(tip)
              && IsChain(node.tree.hasher, Sync(node, v, tip).value.entries)
  {
    if Reachable(node, v, tip) {
      NewEntriesAreBranch(node, v, tip);
      AppliedBranch(node.tree, v, tip, ForkDepth(node.tree, v, tip));
      PathIsChain(node.tree, tip);
    } else if v.entries != [] {
      LookupIsSearch(node.tree, v, tip);
    }
  }

  // ---------------------------------------------------------------- runs

  /** Updates against a node whose best block moves; an error keeps the list, a panic ends the run. */
  ghost function Run(t: Tree, v: Headers, bests: seq<Hash>): Outcome<Headers>
    requires t.Valid() && forall i :: 0 <= i < |bests| ==> t.Knows(bests[i])
    decreases |bests|
  {
    if bests == [] then Ok(v)
    else
      match Sync(Node(t, bests[0]), v, bests[0])
      case Ok(w) => Run(t, w, bests[1..])
      case Err => Run(t, v, bests[1..])
      case Panic => Panic
  }

  /** However the best block moves through the tree, no run panics and the list is the path to the last best block. */
  lemma {:induction false} RunFollowsNode(t: Tree, v: Headers, bests: seq<Hash>)
    requires t.Valid() && Synced(t, v)
    requires forall i :: 0 <= i < |bests| ==> t.Knows(bests[i])
    ensures Run(t, v, bests).Ok?
    ensures Synced(t, Run(t, v, bests).value)
    ensures bests != [] ==> Run(t, v, bests).value.entries == t.PathTo(bests[|bests| - 1])
    decreases |bests|
  {
    hide Sync;
    hide Synced;
    if bests != [] {
      var node := Node(t, bests[0]);
      SyncToBest(node, v);
      var w := if Sync(node, v, bests[0]).Ok? then Sync(node, v, bests[0]).value else v;
      RunFollowsNode(t, w, bests[1..]);
      assert |bests| > 1 ==> bests[1..][|bests| - 2] == bests[|bests| - 1];
    }
  }

  /** Following the best block never panics; it fails only while there is no block at all, and then the list is empty already. */
  lemma SyncToBest(node: Node, v: Headers)
    requires node.Valid() && Synced(node.tree, v)
    ensures Sync(node, v, node.best) != Panic
    ensures Sync(node, v, node.best).Ok? ==>
              && Synced(node.tree, Sync(node, v, node.best).value)
              && Sync(node, v, node.best).value.entries == node.tree.PathTo(node.best)
    ensures !Sync(node, v, node.best).Ok? ==> v.entries == node.tree.PathTo(node.best)
  {
    SyncStep(node, v, node.best);
    if !Reachable(node, v, node.best) {
      hide Synced;
      assert v.entries == [] && node.best == NULL_HASH;
    }
  }
}
