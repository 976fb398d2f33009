/** The two header walks over the node: the full download and the walk back to a known block. */
module Daemon {
  import opened ByteKeys
  import opened Chain
  import opened HeaderChain

  /** The node, stable during one update: its header tree and its best block. */
  datatype Node = Node(tree: Tree, best: Hash) {
    ghost predicate Valid() {
      tree.Valid() && tree.Knows(best)
    }
  }

  const CHUNK_SIZE := 100_000

  function Reversed<T>(s: seq<T>): (r: seq<T>)
    ensures |r| == |s|
  {
    seq(|s|, i requires 0 <= i < |s| => s[|s| - 1 - i])
  }

  /** What the walk back from `h` collects, oldest first. */
  ghost function WalkBack(t: Tree, v: Headers, h: Hash): seq<Header>
    requires t.Valid() && t.Knows(h)
    decreases t.Depth(h)
  {
    if h == NULL_HASH || v.Lookup(h).Some? then []
    else WalkBack(t, v, t.Parent(h)) + [t.headers[h]]
  }

  /** `get_all_headers` against the node's active chain: an exact account of its three outcomes. */
  ghost function AllHeaders(node: Node, tip: Hash): Outcome<seq<Header>>
    requires node.Valid()
  {
    if tip !in node.tree.headers || node.tree.Depth(tip) > node.tree.Depth(node.best) then Err
    else if node.tree.OnPath(tip, node.best) then Ok(HeadersOf(node.tree.PathTo(tip)))
    else Panic
  }

  /** `getblockheaders`: the headers at these heights of the active chain, or an error past its end. */
  method GetBlockHeaders(node: Node, active: seq<Header>, lo: nat, hi: nat) returns (r: Outcome<seq<Header>>)
    requires node.Valid() && active == HeadersOf(node.tree.PathTo(node.best))
    requires lo <= hi
    ensures r == if hi <= |active| then Ok(active[lo..hi]) else if lo == hi then Ok([]) else Err
  {
    var hs := [];
    for height := lo to hi
      invariant height <= |active| || lo == height
      invariant lo <= |active| ==> height <= |active| && hs == active[lo..height]
      invariant lo > |active| ==> hs == []
    {
      if height >= |active| {
        return Err;
      }
      hs := hs + [active[height]];
    }
    r := Ok(hs);
  }

  method GetAllHeaders(node: Node, active: seq<Header>, tip: Hash) returns (r: Outcome<seq<Header>>)
    requires node.Valid() && active == HeadersOf(node.tree.PathTo(node.best))
    ensures r == AllHeaders(node, tip)
  {
    if tip !in node.tree.headers {
      return Err;
    }
    var count := node.tree.heights[tip] + 1;
    var result := [];
    var lo := 0;
    while lo < count
      invariant 0 <= lo <= count
      invariant lo <= |active| && result == active[..lo]
    {
      var hi := if lo + CHUNK_SIZE < count then lo + CHUNK_SIZE else count;
      var chunk := GetBlockHeaders(node, active, lo, hi);
      if !chunk.Ok? {
        return Err;
      }
      result := result + chunk.value;
      lo := hi;
    }
    assert |result| == count;
    var last := CheckLinks(node, result);
    node.tree.OnPathAt(tip, node.best);
    if last != Ok(tip) {
      return Panic;
    }
    AncestorHeaders(node, tip);
    r := Ok(result);
  }

  /** The final loop of `get_all_headers`: on a prefix of the active chain every link check passes. */
  method CheckLinks(node: Node, hs: seq<Header>) returns (r: Outcome<Hash>)
    requires node.Valid()
    requires hs <= HeadersOf(node.tree.PathTo(node.best))
    ensures r == Ok(if hs == [] then NULL_HASH else node.tree.PathTo(node.best)[|hs| - 1].hash)
  {
    ghost var p := node.tree.PathTo(node.best);
    var blockhash := NULL_HASH;
    for i := 0 to |hs|
      invariant blockhash == if i == 0 then NULL_HASH else p[i - 1].hash
    {
      node.tree.PathShape(node.best, i);
      assert hs[i] == p[i].header;
      if hs[i].prev != blockhash {
        return Panic;
      }
      blockhash := node.tree.hasher(hs[i]);
    }
    r := Ok(blockhash);
  }

  lemma AncestorHeaders(node: Node, tip: Hash)
    requires node.Valid() && node.tree.Knows(tip) && node.tree.OnPath(tip, node.best)
    ensures HeadersOf(node.tree.PathTo(tip)) == HeadersOf(node.tree.PathTo(node.best))[..node.tree.Depth(tip)]
  {
  }

  /** `get_new_headers`: with a valid tree it fails only for an unknown tip, and never on the way down. */
  method GetNewHeaders(node: Node, active: seq<Header>, v: Headers, tip: Hash) returns (r: Outcome<seq<Header>>)
    requires node.Valid() && active == HeadersOf(node.tree.PathTo(node.best))
    ensures v.entries == [] ==> r == AllHeaders(node, tip)
    ensures v.entries != [] && node.tree.Knows(tip) ==> r == Ok(WalkBack(node.tree, v, tip))
    ensures v.entries != [] && !node.tree.Knows(tip) ==> r == if v.Lookup(tip).Some? then Ok([]) else Err
  {
    if |v.entries| == 0 {
      r := GetAllHeaders(node, active, tip);
      return;
    }
    var newHeaders := [];
    var blockhash := tip;
    ghost var t := node.tree;
    ghost var known := t.Knows(tip);
    while blockhash != NULL_HASH
      invariant known ==> t.Knows(blockhash) && WalkBack(t, v, tip) == WalkBack(t, v, blockhash) + Reversed(newHeaders)
      invariant !known ==> blockhash == tip && newHeaders == []
      decreases if known then t.Depth(blockhash) else 0
    {
      if v.Lookup(blockhash).Some? {
        break;
      }
      if blockhash !in node.tree.headers {
        return Err;
      }
      var header := node.tree.headers[blockhash];
      assert known ==> t.Parent(blockhash) == header.prev;
      ReversedPush(newHeaders, header);
      newHeaders := newHeaders + [header];
      blockhash := header.prev;
    }
    assert known ==> WalkBack(t, v, blockhash) == [] && [] + Reversed(newHeaders) == Reversed(newHeaders);
    r := Ok(Reversed(newHeaders));
  }

  lemma ReversedPush<T>(s: seq<T>, x: T)
    ensures Reversed(s + [x]) == [x] + Reversed(s)
  {
  }
}
