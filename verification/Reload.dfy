/** Rebuilding the header list from the `L` row and the `B` rows. */
module Reload {
  import opened ByteKeys
  import opened Chain
  import opened HeaderChain
  import opened Daemon
  import opened HeaderSync
  import opened Rows
  import opened Store
  import opened Indexing
  import opened BlockStore

  const BLOCK_PREFIX: Bytes := [TAG_BLOCK]

  /** The `L` row, or the null hash without one. */
  function LastOf(s: Contents): Hash {
    if LAST_KEY in s && |s[LAST_KEY]| == HASH_LEN then s[LAST_KEY] else NULL_HASH
  }

  /** The header map filled from the `B` rows. */
  function HeaderMap(rows: seq<Row>): Outcome<map<Hash, Header>> {
    if rows == [] then Ok(map[])
    else
      var n := |rows| - 1;
      var m := HeaderMap(rows[..n]);
      var key, header := DecodeBlockKey(rows[n].key), DecodeHeader(rows[n].value);
      if m.Ok? && key.Ok? && header.Ok? then Ok(m.value[key.value := header.value]) else Panic
  }

  /** Draining the map from `h` down to the null hash, oldest first. */
  function Trace(m: map<Hash, Header>, h: Hash): Outcome<seq<Header>>
    decreases m.Keys
  {
    if h == NULL_HASH then Ok([])
    else if h !in m then Panic
    else
      var below := Trace(m - {h}, m[h].prev);
      if below.Ok? then Ok(below.value + [m[h]]) else Panic
  }

  /** The checks and the `order`/`apply` at the end of `read_indexed_headers`. */
  function Rebuilt(hasher: Header -> Hash, hs: seq<Header>, last: Hash): Outcome<Headers> {
    if hs != [] && hs[0].prev != NULL_HASH then Panic
    else if (if hs == [] then NULL_HASH else hasher(hs[|hs| - 1])) != last then Panic
    else
      var es := EMPTY.Order(hasher, hs);
      if es.Ok? && EMPTY.ApplyAccepts(es.value, last) then Ok(EMPTY.Applied(es.value, last)) else Panic
  }

  /** `read_indexed_headers` */
  function Reloaded(hasher: Header -> Hash, s: Contents): Outcome<Headers> {
    if LAST_KEY in s && |s[LAST_KEY]| != HASH_LEN then Panic
    else
      var m := HeaderMap(PrefixRows(s, BLOCK_PREFIX));
      if !m.Ok? then Panic
      else
        var hs := Trace(m.value, LastOf(s));
        if hs.Ok? then Rebuilt(hasher, hs.value, LastOf(s)) else Panic
  }

  /** It terminates on every store, also one with missing or cyclic headers. */
  method ReadIndexedHeaders(hasher: Header -> Hash, store: DBStore) returns (r: Outcome<Headers>)
    ensures r == Reloaded(hasher, store.db)
  {
    var last := store.Get(LAST_KEY);
    if last.Some? && |last.value| != HASH_LEN {
      return Panic;
    }
    var latest: Hash := if last.Some? then last.value else NULL_HASH;
    var m := LoadHeaderMap(store);
    if !m.Ok? {
      return Panic;
    }
    var hs := DrainHeaders(m.value, latest);
    if !hs.Ok? {
      return Panic;
    }
    if |hs.value| > 0 && hs.value[0].prev != NULL_HASH {
      return Panic;
    }
    var top := if |hs.value| == 0 then NULL_HASH else hasher(hs.value[|hs.value| - 1]);
    if top != latest {
      return Panic;
    }
    var list := new HeaderList();
    var es := list.View().Order(hasher, hs.value);
    if !es.Ok? {
      return Panic;
    }
    var ok := list.Apply(es.value, latest);
    r := if ok then Ok(list.View()) else Panic;
  }

  method LoadHeaderMap(store: DBStore) returns (r: Outcome<map<Hash, Header>>)
    ensures r.Ok? <==> HeaderMap(PrefixRows(store.db, BLOCK_PREFIX)).Ok?
    ensures r.Ok? ==> r == HeaderMap(PrefixRows(store.db, BLOCK_PREFIX))
  {
    var rows := store.Scan(BLOCK_PREFIX);
    var m: map<Hash, Header> := map[];
    for i := 0 to |rows|
      invariant HeaderMap(rows[..i]) == Ok(m)
    {
      assert rows[..i + 1][..i] == rows[..i];
      var key, header := DecodeBlockKey(rows[i].key), DecodeHeader(rows[i].value);
      if !key.Ok? || !header.Ok? {
        HeaderMapFails(rows, i + 1);
        return Panic;
      }
      m := m[key.value := header.value];
    }
    assert rows[..|rows|] == rows;
    r := Ok(m);
  }

  lemma {:induction false} HeaderMapFails(rows: seq<Row>, i: nat)
    requires i <= |rows| && !HeaderMap(rows[..i]).Ok?
    ensures !HeaderMap(rows).Ok?
  {
    if i < |rows| {
      var n := |rows| - 1;
      assert rows[..n][..i] == rows[..i];
      HeaderMapFails(rows[..n], i);
    } else {
      assert rows[..i] == rows;
    }
  }

  method DrainHeaders(headers: map<Hash, Header>, latest: Hash) returns (r: Outcome<seq<Header>>)
    ensures r == Trace(headers, latest)
  {
    hide Trace;
    TraceOne(headers, latest);
    var m, blockhash, hs := headers, latest, [];
    while blockhash != NULL_HASH
      invariant Trace(headers, latest).Ok? <==> Trace(m, blockhash).Ok?
      invariant Trace(m, blockhash).Ok? ==> Trace(headers, latest).value == Trace(m, blockhash).value + Reversed(hs)
      invariant !Trace(m, blockhash).Ok? ==> Trace(headers, latest) == Panic
      decreases m.Keys
    {
      TraceOne(m, blockhash);
      if blockhash !in m {
        return Panic;
      }
      var header := m[blockhash];
      m := m - {blockhash};
      ReversedPush(hs, header);
      hs := hs + [header];
      blockhash := header.prev;
    }
    TraceOne(m, blockhash);
    assert [] + Reversed(hs) == Reversed(hs);
    r := Ok(Reversed(hs));
  }

  /** One block of the drain. */
  lemma TraceOne(m: map<Hash, Header>, h: Hash)
    ensures h == NULL_HASH ==> Trace(m, h) == Ok([])
    ensures h != NULL_HASH && h !in m ==> Trace(m, h) == Panic
    ensures h != NULL_HASH && h in m ==>
              var below := Trace(m - {h}, m[h].prev);
              Trace(m, h) == if below.Ok? then Ok(below.value + [m[h]]) else Panic
  {
  }

  // ---------------------------------------------------------------- what it returns

  /** Every block on the path to `h` has its `B` row. */
  ghost predicate Stored(a: Archive, s: Contents, h: Hash)
    requires a.Valid() && a.tree.Knows(h)
  {
    forall i :: 0 <= i < |a.tree.PathTo(h)| ==> Indexed(s, a.tree.PathTo(h)[i].hash)
  }

  /** The `L` row, if present, names a block of the tree that is stored with all its ancestors. */
  ghost predicate Rooted(a: Archive, s: Contents)
    requires a.Valid()
  {
    && (LAST_KEY in s ==> |s[LAST_KEY]| == HASH_LEN && LastOf(s) in a.tree.headers)
    && a.tree.Knows(LastOf(s))
    && Stored(a, s, LastOf(s))
  }

  /** Only `B` rows start with the tag `B`. */
  lemma BlockScanKey(a: Archive, s: Contents, k: Bytes)
    requires a.Valid() && Faithful(a, s) && k in s && BLOCK_PREFIX <= k
    ensures exists h: Hash :: h in a.tree.headers && Indexed(s, h) && k == BlockKey(h)
  {
    assert k[0] == TAG_BLOCK && KeyAccounted(a, s, k);
    var h :| h in IndexedBlocks(a, s) && a.KeyAt(h, k);
    if k != BlockKey(h) {
      var j :| 0 <= j < |a.BlockAt(h).txs| && HasKey(a.BlockAt(h).txs[j], k);
      KeyTags(a.BlockAt(h).txs[j], k);
      assert false;
    }
  }

  ghost predicate IsBlockRow(a: Archive, s: Contents, r: Row)
    requires a.Valid()
  {
    exists h :: h in IndexedBlocks(a, s) && r == BlockRow(h, a.tree.headers[h])
  }

  /** The header map has nothing but indexed blocks, each with its own header. */
  ghost predicate Loaded(a: Archive, s: Contents, m: map<Hash, Header>)
    requires a.Valid()
  {
    forall h :: h in m ==> h in IndexedBlocks(a, s) && m[h] == a.tree.headers[h]
  }

  lemma {:induction false} HeaderMapOf(a: Archive, s: Contents, rows: seq<Row>)
    requires a.Valid() && forall i :: 0 <= i < |rows| ==> IsBlockRow(a, s, rows[i])
    ensures HeaderMap(rows).Ok? && Loaded(a, s, HeaderMap(rows).value)
  {
    if rows != [] {
      var n := |rows| - 1;
      HeaderMapOf(a, s, rows[..n]);
      assert IsBlockRow(a, s, rows[n]);
      var g :| g in IndexedBlocks(a, s) && rows[n] == BlockRow(g, a.tree.headers[g]);
      BlockKeyRoundTrip(g);
      HeaderRoundTrip(a.tree.headers[g]);
    }
  }

  lemma {:induction false} HeaderMapHas(rows: seq<Row>, i: nat, h: Hash)
    requires HeaderMap(rows).Ok? && i < |rows| && rows[i].key == BlockKey(h)
    ensures h in HeaderMap(rows).value
  {
    var n := |rows| - 1;
    BlockKeyRoundTrip(h);
    if i < n {
      assert rows[..n][i] == rows[i];
      HeaderMapHas(rows[..n], i, h);
    }
  }

  lemma ScannedHeaders(a: Archive, s: Contents)
    requires a.Valid() && Faithful(a, s)
    ensures HeaderMap(PrefixRows(s, BLOCK_PREFIX)).Ok?
    ensures Loaded(a, s, HeaderMap(PrefixRows(s, BLOCK_PREFIX)).value)
    ensures forall h :: h in IndexedBlocks(a, s) ==> h in HeaderMap(PrefixRows(s, BLOCK_PREFIX)).value
  {
    var ks := Ascending(set k | k in s && BLOCK_PREFIX <= k);
    var rows := PrefixRows(s, BLOCK_PREFIX);
    forall i | 0 <= i < |rows|
      ensures IsBlockRow(a, s, rows[i])
    {
      assert ks[i] in ks;
      BlockScanKey(a, s, ks[i]);
      var h: Hash :| h in a.tree.headers && Indexed(s, h) && ks[i] == BlockKey(h);
      assert HeaderKept(a, s, h);
    }
    HeaderMapOf(a, s, rows);
    forall h | h in IndexedBlocks(a, s)
      ensures h in HeaderMap(rows).value
    {
      assert BLOCK_PREFIX <= BlockKey(h);
      assert BlockKey(h) in ks;
      var i :| 0 <= i < |ks| && ks[i] == BlockKey(h);
      HeaderMapHas(rows, i, h);
    }
  }

  lemma {:induction false} TraceIsPath(t: Tree, m: map<Hash, Header>, h: Hash)
    requires t.Valid() && t.Knows(h)
    requires forall g :: g in m ==> g in t.headers && m[g] == t.headers[g]
    requires forall i :: 0 <= i < |t.PathTo(h)| ==> t.PathTo(h)[i].hash in m
    ensures Trace(m, h) == Ok(HeadersOf(t.PathTo(h)))
    decreases t.Depth(h)
  {
    if h != NULL_HASH {
      var parent := t.Parent(h);
      assert t.PathTo(h)[t.heights[h]] == t.Entry(h);
      forall i | 0 <= i < |t.PathTo(parent)|
        ensures t.PathTo(parent)[i].hash in m - {h}
      {
        assert t.PathTo(h)[i] == t.PathTo(parent)[i];
        t.PathShape(parent, i);
      }
      TraceIsPath(t, m - {h}, parent);
      HeadersOfPush(t.PathTo(parent), t.Entry(h));
    }
  }

  lemma RebuiltPath(t: Tree, h: Hash)
    requires t.Valid() && t.Knows(h)
    ensures Rebuilt(t.hasher, HeadersOf(t.PathTo(h)), h).Ok?
    ensures Rebuilt(t.hasher, HeadersOf(t.PathTo(h)), h).value.entries == t.PathTo(h)
    ensures Synced(t, Rebuilt(t.hasher, HeadersOf(t.PathTo(h)), h).value)
  {
    FromEmpty(t, h);
    PathEnds(t, h);
    RebuiltFrom(t.hasher, HeadersOf(t.PathTo(h)), h, t.PathTo(h));
  }

  lemma RebuiltFrom(hasher: Header -> Hash, hs: seq<Header>, last: Hash, es: seq<HeaderEntry>)
    requires hs != [] ==> hs[0].prev == NULL_HASH && hasher(hs[|hs| - 1]) == last
    requires hs == [] ==> last == NULL_HASH
    requires EMPTY.Order(hasher, hs) == Ok(es) && EMPTY.ApplyAccepts(es, last)
    ensures Rebuilt(hasher, hs, last) == Ok(EMPTY.Applied(es, last))
  {
  }

  /** Starting from the empty list, the whole path is ordered and applied. */
  lemma FromEmpty(t: Tree, h: Hash)
    requires t.Valid() && t.Knows(h)
    ensures EMPTY.Order(t.hasher, HeadersOf(t.PathTo(h))) == Ok(t.PathTo(h))
    ensures EMPTY.ApplyAccepts(t.PathTo(h), h)
    ensures EMPTY.Applied(t.PathTo(h), h).entries == t.PathTo(h)
    ensures Synced(t, EMPTY.Applied(t.PathTo(h), h))
  {
    EmptySynced(t);
    assert t.PathTo(h)[0..] == t.PathTo(h);
    OrderedBranch(t, EMPTY, h, 0);
    AppliedBranch(t, EMPTY, h, 0);
  }

  lemma PathEnds(t: Tree, h: Hash)
    requires t.Valid() && t.Knows(h)
    ensures h == NULL_HASH ==> HeadersOf(t.PathTo(h)) == []
    ensures h != NULL_HASH ==>
              var hs := HeadersOf(t.PathTo(h));
              hs != [] && hs[0].prev == NULL_HASH && t.hasher(hs[|hs| - 1]) == h
  {
    if h != NULL_HASH {
      t.PathShape(h, 0);
      t.PathShape(h, t.heights[h]);
    }
  }

  /** From every store whose `L` block is stored with its ancestors, the list is exactly the path to `L`. */
  lemma ReloadReturnsPath(a: Archive, s: Contents)
    requires a.Valid() && Faithful(a, s) && Rooted(a, s)
    ensures Reloaded(a.tree.hasher, s).Ok?
    ensures Reloaded(a.tree.hasher, s).value.entries == a.tree.PathTo(LastOf(s))
    ensures Synced(a.tree, Reloaded(a.tree.hasher, s).value)
  {
    var h := LastOf(s);
    ScannedHeaders(a, s);
    a.tree.PathShapeAll(h);
    TraceIsPath(a.tree, HeaderMap(PrefixRows(s, BLOCK_PREFIX)).value, h);
    RebuiltPath(a.tree, h);
  }

  /** Whatever the store holds, a list that is returned is a chain of hashed headers from a genesis block to `L`. */
  lemma ReloadSound(hasher: Header -> Hash, s: Contents)
    requires Reloaded(hasher, s).Ok?
    ensures IsChain(hasher, Reloaded(hasher, s).value.entries)
    ensures Reloaded(hasher, s).value.Tip() == LastOf(s)
  {
    var hs := Trace(HeaderMap(PrefixRows(s, BLOCK_PREFIX)).value, LastOf(s)).value;
    RebuiltSound(hasher, hs, LastOf(s));
  }

  lemma RebuiltSound(hasher: Header -> Hash, hs: seq<Header>, last: Hash)
    requires Rebuilt(hasher, hs, last).Ok?
    ensures IsChain(hasher, Rebuilt(hasher, hs, last).value.entries) && Rebuilt(hasher, hs, last).value.Tip() == last
  {
    var es := EMPTY.Order(hasher, hs).value;
    OrderedIsChain(hasher, hs, es);
    hide Headers.Order;
    hide IsChain;
    assert EMPTY.Applied(es, last).entries == es;
  }

  lemma OrderedIsChain(hasher: Header -> Hash, hs: seq<Header>, es: seq<HeaderEntry>)
    requires EMPTY.Order(hasher, hs) == Ok(es)
    ensures IsChain(hasher, es) && (es != [] ==> es[0].height == 0)
  {
    forall i | 0 <= i < |es|
      ensures ChainAt(hasher, es, i)
    {
      if i > 0 {
        assert HashLinkedAt(hasher, hs, i);
      }
    }
  }

  /** It fails only for a reason visible in the store: with a faithful store, an `L` block that is not stored with its ancestors. */
  lemma ReloadNeedsAncestors(a: Archive, s: Contents)
    requires a.Valid() && Faithful(a, s)
    requires LAST_KEY in s ==> |s[LAST_KEY]| == HASH_LEN && LastOf(s) in a.tree.headers
    ensures Reloaded(a.tree.hasher, s).Ok? <==> Rooted(a, s)
  {
    if Rooted(a, s) {
      ReloadReturnsPath(a, s);
    } else {
      ScannedHeaders(a, s);
      TraceMisses(a, s, HeaderMap(PrefixRows(s, BLOCK_PREFIX)).value, LastOf(s));
    }
  }

  lemma {:induction false} TraceMisses(a: Archive, s: Contents, m: map<Hash, Header>, h: Hash)
    requires a.Valid() && a.tree.Knows(h) && !Stored(a, s, h)
    requires Loaded(a, s, m)
    ensures Trace(m, h) == Panic
    decreases a.tree.Depth(h)
  {
    var t := a.tree;
    if h in m {
      var parent := t.Parent(h);
      var i :| 0 <= i < |t.PathTo(h)| && !Indexed(s, t.PathTo(h)[i].hash);
      assert i < |t.PathTo(parent)| && t.PathTo(parent)[i] == t.PathTo(h)[i];
      TraceMisses(a, s, m - {h}, parent);
    }
  }
}
