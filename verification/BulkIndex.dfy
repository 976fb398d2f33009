/** Indexing one block file, the set of indexed blocks and the final `L` row of a bulk import. */
module BulkIndex {
  import opened ByteKeys
  import opened Chain
  import opened HeaderChain
  import opened HeaderSync
  import opened Rows
  import opened Store
  import opened Indexing
  import opened BlockStore
  import opened Reload
  import opened BlockFiles

  // ---------------------------------------------------------------- sorting the rows of a file

  predicate SortedByKey(rows: seq<Row>) {
    forall i, j :: 0 <= i < j < |rows| ==> Leq(rows[i].key, rows[j].key)
  }

  /** What `sort_unstable_by` may return: the order of rows with equal keys is left open. */
  ghost predicate IsSortOf(sorted: seq<Row>, rows: seq<Row>) {
    SortedByKey(sorted) && multiset(sorted) == multiset(rows)
  }

  lemma SortKeepsRows(sorted: seq<Row>, rows: seq<Row>, r: Row)
    requires IsSortOf(sorted, rows)
    ensures r in sorted <==> r in rows
  {
    assert r in sorted <==> r in multiset(sorted);
    assert r in rows <==> r in multiset(rows);
  }

  function Inserted(sorted: seq<Row>, r: Row): (result: seq<Row>)
    requires SortedByKey(sorted)
    ensures SortedByKey(result) && multiset(result) == multiset(sorted) + multiset{r}
  {
    if sorted == [] then [r]
    else
      var n := |sorted| - 1;
      assert sorted == sorted[..n] + [sorted[n]];
      if Leq(sorted[n].key, r.key) then
        BelowAll(sorted, r.key);
        sorted + [r]
      else
        var result := Inserted(sorted[..n], r) + [sorted[n]];
        AboveAll(sorted, r, Inserted(sorted[..n], r));
        result
  }

  lemma BelowAll(sorted: seq<Row>, k: Bytes)
    requires SortedByKey(sorted) && sorted != [] && Leq(sorted[|sorted| - 1].key, k)
    ensures forall i :: 0 <= i < |sorted| ==> Leq(sorted[i].key, k)
  {
    forall i | 0 <= i < |sorted| - 1
      ensures Leq(sorted[i].key, k)
    {
      LeqTransitive(sorted[i].key, sorted[|sorted| - 1].key, k);
    }
  }

  lemma AboveAll(sorted: seq<Row>, r: Row, below: seq<Row>)
    requires SortedByKey(sorted) && sorted != [] && !Leq(sorted[|sorted| - 1].key, r.key)
    requires multiset(below) == multiset(sorted[..|sorted| - 1]) + multiset{r}
    ensures forall i :: 0 <= i < |below| ==> Leq(below[i].key, sorted[|sorted| - 1].key)
  {
    var n := |sorted| - 1;
    LeqTotal(r.key, sorted[n].key);
    forall i | 0 <= i < |below|
      ensures Leq(below[i].key, sorted[n].key)
    {
      assert below[i] in multiset(below);
      if below[i] != r {
        assert below[i] in multiset(sorted[..n]);
        assert below[i] in sorted[..n];
        var j :| 0 <= j < n && sorted[..n][j] == below[i];
      }
    }
  }

  /** One admissible result of the sort. */
  function Sorted(rows: seq<Row>): (sorted: seq<Row>)
    ensures IsSortOf(sorted, rows)
  {
    if rows == [] then []
    else
      var n := |rows| - 1;
      assert rows == rows[..n] + [rows[n]];
      Inserted(Sorted(rows[..n]), rows[n])
  }

  // ---------------------------------------------------------------- one file

  /** The block is on the current chain and no thread has claimed it yet. */
  predicate Fresh(hasher: Header -> Hash, v: Headers, indexed: set<Hash>, b: Block) {
    v.Lookup(hasher(b.header)).Some? && hasher(b.header) !in indexed
  }

  /** The hashes a thread claims while going through `blocks`, in order. */
  function Claims(hasher: Header -> Hash, v: Headers, indexed: set<Hash>, blocks: seq<Block>): seq<Hash> {
    if blocks == [] then []
    else
      var n := |blocks| - 1;
      var before := Claims(hasher, v, indexed, blocks[..n]);
      if Fresh(hasher, v, indexed + AsSet(before), blocks[n]) then before + [hasher(blocks[n].header)] else before
  }

  /** The rows of the blocks a file claims, block by block. */
  function ClaimedRows(hasher: Header -> Hash, v: Headers, indexed: set<Hash>, blocks: seq<Block>): seq<Row> {
    if blocks == [] then []
    else
      var n := |blocks| - 1;
      var claimed := indexed + AsSet(Claims(hasher, v, indexed, blocks[..n]));
      ClaimedRows(hasher, v, indexed, blocks[..n]) + (if Fresh(hasher, v, claimed, blocks[n]) then IndexBlock(hasher, blocks[n]) else [])
  }

  function AsSet(hs: seq<Hash>): (s: set<Hash>)
    ensures forall h :: h in s <==> h in hs
  {
    set h | h in hs
  }

  /** A file claims each of its current-chain blocks that was not indexed before exactly once. */
  lemma {:induction false} ClaimsExact(hasher: Header -> Hash, v: Headers, indexed: set<Hash>, blocks: seq<Block>)
    ensures forall h :: h in Claims(hasher, v, indexed, blocks) <==>
              h !in indexed && v.Lookup(h).Some? && exists i :: 0 <= i < |blocks| && hasher(blocks[i].header) == h
    ensures forall i, j :: 0 <= i < j < |Claims(hasher, v, indexed, blocks)| ==>
              Claims(hasher, v, indexed, blocks)[i] != Claims(hasher, v, indexed, blocks)[j]
  {
    if blocks != [] {
      var n := |blocks| - 1;
      ClaimsExact(hasher, v, indexed, blocks[..n]);
      var before := Claims(hasher, v, indexed, blocks[..n]);
      var g := hasher(blocks[n].header);
      assert forall i :: 0 <= i < n ==> blocks[..n][i] == blocks[i];
      assert forall i :: 0 <= i < |before| ==> before[i] in before;
    }
  }

  /** The files hold the node's own blocks: a block whose hash is in the tree is the block of that hash. */
  ghost predicate Genuine(a: Archive, blocks: seq<Block>)
    requires a.Valid()
  {
    forall i :: 0 <= i < |blocks| && a.tree.hasher(blocks[i].header) in a.tree.headers ==>
      blocks[i] == a.BlockAt(a.tree.hasher(blocks[i].header))
  }

  class Parser {
    const magic: u32
    const current: Headers
    var indexed: set<Hash>

    constructor (magic: u32, current: Headers, indexed: set<Hash>)
      ensures this.magic == magic && this.current == current && this.indexed == indexed
    {
      this.magic, this.current, this.indexed := magic, current, indexed;
    }

    /** `index_blkfile`: an unparsable file is passed on and claims nothing. */
    method IndexBlkFile(a: Archive, codec: Bytes -> Option<Block>, blob: Bytes) returns (r: Outcome<seq<Row>>)
      requires a.Valid() && Synced(a.tree, current)
      requires ParseFrom(codec, magic, blob, 0).Ok? ==> Genuine(a, ParseFrom(codec, magic, blob, 0).value)
      modifies this
      ensures r.Ok? <==> ParseFrom(codec, magic, blob, 0).Ok?
      ensures r == Err <==> ParseFrom(codec, magic, blob, 0) == Err
      ensures !r.Ok? ==> indexed == old(indexed)
      ensures r.Ok? ==> IsSortOf(r.value, ClaimedRows(a.tree.hasher, current, old(indexed), ParseFrom(codec, magic, blob, 0).value))
      ensures r.Ok? ==>
                var hs := Claims(a.tree.hasher, current, old(indexed), ParseFrom(codec, magic, blob, 0).value);
                && indexed == old(indexed) + AsSet(hs)
                && RowsOf(a, r.value, AsSet(hs))
    {
      var parsed := ParseBlocks(codec, magic, blob);
      if !parsed.Ok? {
        return if parsed == Err then Err else Panic;
      }
      var rows := CollectRows(a.tree.hasher, parsed.value);
      ClaimedRowsOf(a, current, old(indexed), parsed.value);
      var sorted := Sorted(rows);
      SortedRowsOf(a, sorted, rows, AsSet(Claims(a.tree.hasher, current, old(indexed), parsed.value)));
      r := Ok(sorted);
    }

    /** The loop of `index_blkfile`: each block is looked up, and claimed under the lock if it is new. */
    method CollectRows(hasher: Header -> Hash, blocks: seq<Block>) returns (rows: seq<Row>)
      modifies this
      ensures indexed == old(indexed) + AsSet(Claims(hasher, current, old(indexed), blocks))
      ensures rows == ClaimedRows(hasher, current, old(indexed), blocks)
    {
      hide IndexBlock;
      hide Headers.Lookup;
      rows := [];
      for i := 0 to |blocks|
        invariant indexed == old(indexed) + AsSet(Claims(hasher, current, old(indexed), blocks[..i]))
        invariant rows == ClaimedRows(hasher, current, old(indexed), blocks[..i])
      {
        assert blocks[..i + 1][..i] == blocks[..i];
        var blockhash := hasher(blocks[i].header);
        if current.Lookup(blockhash).Some? && blockhash !in indexed {
          rows := rows + IndexBlock(hasher, blocks[i]);
          indexed := indexed + {blockhash};
        }
      }
      assert blocks[..|blocks|] == blocks;
    }

    /** `last_indexed_row`: the last of the leading headers that are all indexed; no such header panics. */
    method LastIndexedRow() returns (r: Outcome<Row>)
      ensures r == if LeadingIndexed(current.entries, indexed) == 0 then Panic
                   else Ok(LastRow(current.entries[LeadingIndexed(current.entries, indexed) - 1].hash))
    {
      var n := 0;
      while n < |current.entries| && current.entries[n].hash in indexed
        invariant 0 <= n <= |current.entries|
        invariant LeadingIndexed(current.entries, indexed) == n + LeadingIndexed(current.entries[n..], indexed)
      {
        assert current.entries[n..][1..] == current.entries[n + 1..];
        n := n + 1;
      }
      r := if n == 0 then Panic else Ok(LastRow(current.entries[n - 1].hash));
    }
  }

  /** The rows a file collects are those of the blocks it claims. */
  lemma {:induction false} ClaimedRowsOf(a: Archive, v: Headers, indexed: set<Hash>, blocks: seq<Block>)
    requires a.Valid() && Synced(a.tree, v) && Genuine(a, blocks)
    ensures RowsOf(a, ClaimedRows(a.tree.hasher, v, indexed, blocks), AsSet(Claims(a.tree.hasher, v, indexed, blocks)))
  {
    hide RowsOf;
    hide IndexBlock;
    if blocks == [] {
      NoRowsOf(a);
    } else {
      var n := |blocks| - 1;
      var h := a.tree.hasher(blocks[n].header);
      var before := Claims(a.tree.hasher, v, indexed, blocks[..n]);
      ClaimedRowsOf(a, v, indexed, blocks[..n]);
      if Fresh(a.tree.hasher, v, indexed + AsSet(before), blocks[n]) {
        LookupIsSearch(a.tree, v, h);
        assert blocks[n] == a.BlockAt(h);
        RowsOfPush(a, ClaimedRows(a.tree.hasher, v, indexed, blocks[..n]), AsSet(before), h);
        assert AsSet(before + [h]) == AsSet(before) + {h};
      } else {
        assert ClaimedRows(a.tree.hasher, v, indexed, blocks) == ClaimedRows(a.tree.hasher, v, indexed, blocks[..n]);
      }
    }
  }

  lemma NoRowsOf(a: Archive)
    requires a.Valid()
    ensures RowsOf(a, [], AsSet([]))
  {
  }

  lemma RowsOfPush(a: Archive, rows: seq<Row>, hs: set<Hash>, h: Hash)
    requires a.Valid() && RowsOf(a, rows, hs) && h in a.tree.headers
    ensures RowsOf(a, rows + a.RowsAt(h), hs + {h})
  {
  }

  lemma SortedRowsOf(a: Archive, sorted: seq<Row>, rows: seq<Row>, hs: set<Hash>)
    requires a.Valid() && RowsOf(a, rows, hs) && IsSortOf(sorted, rows)
    ensures RowsOf(a, sorted, hs)
  {
    forall r
      ensures r in sorted <==> r in rows
    {
      SortKeepsRows(sorted, rows, r);
    }
  }

  // ---------------------------------------------------------------- the `L` row

  /** `take_while`: how many leading entries are indexed. */
  function LeadingIndexed(es: seq<HeaderEntry>, indexed: set<Hash>): (n: nat)
    ensures n <= |es|
    ensures forall i :: 0 <= i < n ==> es[i].hash in indexed
    ensures n < |es| ==> es[n].hash !in indexed
  {
    if es == [] || es[0].hash !in indexed then 0 else 1 + LeadingIndexed(es[1..], indexed)
  }

  // ---------------------------------------------------------------- which blocks are indexed

  function BlockHashes(rows: seq<Row>): Outcome<set<Hash>> {
    if rows == [] then Ok({})
    else
      var n := |rows| - 1;
      var before, key := BlockHashes(rows[..n]), DecodeBlockKey(rows[n].key);
      if before.Ok? && key.Ok? then Ok(before.value + {key.value}) else Panic
  }

  /** `read_indexed_blockhashes` */
  method ReadIndexedBlockhashes(store: DBStore) returns (r: Outcome<set<Hash>>)
    ensures r.Ok? <==> BlockHashes(PrefixRows(store.db, BLOCK_PREFIX)).Ok?
    ensures r.Ok? ==> r == BlockHashes(PrefixRows(store.db, BLOCK_PREFIX))
  {
    var rows := store.Scan(BLOCK_PREFIX);
    var result: set<Hash> := {};
    for i := 0 to |rows|
      invariant BlockHashes(rows[..i]) == Ok(result)
    {
      assert rows[..i + 1][..i] == rows[..i];
      var key := DecodeBlockKey(rows[i].key);
      if !key.Ok? {
        BlockHashesFail(rows, i + 1);
        return Panic;
      }
      result := result + {key.value};
    }
    assert rows[..|rows|] == rows;
    r := Ok(result);
  }

  lemma {:induction false} BlockHashesFail(rows: seq<Row>, i: nat)
    requires i <= |rows| && !BlockHashes(rows[..i]).Ok?
    ensures !BlockHashes(rows).Ok?
  {
    if i < |rows| {
      var n := |rows| - 1;
      assert rows[..n][..i] == rows[..i];
      BlockHashesFail(rows[..n], i);
    } else {
      assert rows[..i] == rows;
    }
  }

  ghost predicate IsBlockKey(k: Bytes) {
    exists h: Hash :: k == BlockKey(h)
  }

  lemma {:induction false} BlockHashesOf(rows: seq<Row>)
    requires forall i :: 0 <= i < |rows| ==> IsBlockKey(rows[i].key)
    ensures BlockHashes(rows).Ok?
    ensures forall h: Hash :: h in BlockHashes(rows).value <==> Puts(rows, BlockKey(h))
  {
    if rows != [] {
      var n := |rows| - 1;
      assert forall i :: 0 <= i < n ==> rows[..n][i] == rows[i];
      BlockHashesOf(rows[..n]);
      assert IsBlockKey(rows[n].key);
      var g: Hash :| rows[n].key == BlockKey(g);
      BlockKeyRoundTrip(g);
      forall h: Hash
        ensures h in BlockHashes(rows).value <==> Puts(rows, BlockKey(h))
      {
        BlockHashesStep(rows, g, h);
      }
    }
  }

  lemma BlockHashesStep(rows: seq<Row>, g: Hash, h: Hash)
    requires rows != [] && BlockHashes(rows).Ok? && rows[|rows| - 1].key == BlockKey(g)
    requires h in BlockHashes(rows[..|rows| - 1]).value <==> Puts(rows[..|rows| - 1], BlockKey(h))
    ensures h in BlockHashes(rows).value <==> Puts(rows, BlockKey(h))
  {
    PutsPush(rows, BlockKey(h));
    BlockKeyRoundTrip(g);
    if BlockKey(h) == BlockKey(g) {
      BlockKeyInjective(g, h);
    }
    hide BlockKey;
    hide Puts;
  }

  /** From a faithful database the import starts with exactly the blocks that have a `B` row. */
  lemma IndexedIsRead(a: Archive, s: Contents)
    requires a.Valid() && Faithful(a, s)
    ensures BlockHashes(PrefixRows(s, BLOCK_PREFIX)) == Ok(IndexedBlocks(a, s))
  {
    var ks := Ascending(set k | k in s && BLOCK_PREFIX <= k);
    var rows := PrefixRows(s, BLOCK_PREFIX);
    forall i | 0 <= i < |rows|
      ensures IsBlockKey(rows[i].key)
    {
      assert ks[i] in ks;
      BlockScanKey(a, s, ks[i]);
    }
    BlockHashesOf(rows);
    hide Faithful;
    forall h: Hash
      ensures h in BlockHashes(rows).value <==> h in IndexedBlocks(a, s)
    {
      ScannedBlock(a, s, h);
    }
    assert BlockHashes(rows).value == IndexedBlocks(a, s);
  }

  lemma ScannedBlock(a: Archive, s: Contents, h: Hash)
    requires a.Valid() && Faithful(a, s)
    ensures Puts(PrefixRows(s, BLOCK_PREFIX), BlockKey(h)) <==> h in IndexedBlocks(a, s)
  {
    var ks := Ascending(set k | k in s && BLOCK_PREFIX <= k);
    var rows := PrefixRows(s, BLOCK_PREFIX);
    if Puts(rows, BlockKey(h)) {
      var i :| 0 <= i < |rows| && rows[i].key == BlockKey(h);
      assert ks[i] in ks;
      assert HeaderKept(a, s, h);
    }
    if h in IndexedBlocks(a, s) {
      assert BLOCK_PREFIX <= BlockKey(h);
      assert BlockKey(h) in ks;
      var i :| 0 <= i < |ks| && ks[i] == BlockKey(h);
      assert rows[i].key == BlockKey(h);
    }
  }
}
