/** The in-memory header list: a vector of entries and a hash-to-height map that keeps stale entries. */
module HeaderChain {
  import opened ByteKeys
  import opened Chain

  predicate HashLinked(hasher: Header -> Hash, hs: seq<Header>) {
    forall i :: 1 <= i < |hs| ==> HashLinkedAt(hasher, hs, i)
  }

  predicate HashLinkedAt(hasher: Header -> Hash, hs: seq<Header>, i: nat)
    requires 1 <= i < |hs|
  {
    hs[i].prev == hasher(hs[i - 1])
  }

  function Numbered(hasher: Header -> Hash, hs: seq<Header>, base: nat): (es: seq<HeaderEntry>)
    ensures |es| == |hs|
  {
    seq(|hs|, i requires 0 <= i < |hs| => HeaderEntry(base + i, hasher(hs[i]), hs[i]))
  }

  /** Each new entry is one above the previous one and names it as its parent. */
  predicate Consecutive(es: seq<HeaderEntry>) {
    forall i :: 1 <= i < |es| ==> ConsecutiveAt(es, i)
  }

  predicate ConsecutiveAt(es: seq<HeaderEntry>, i: nat)
    requires 1 <= i < |es|
  {
    es[i - 1].height + 1 == es[i].height && es[i - 1].hash == es[i].header.prev
  }

  function InsertAll(m: map<Hash, nat>, es: seq<HeaderEntry>): map<Hash, nat> {
    if es == [] then m
    else
      var n := |es| - 1;
      InsertAll(m, es[..n])[es[n].hash := es[n].height]
  }

  /** The first loop of `apply`. */
  method CheckConsecutive(es: seq<HeaderEntry>) returns (ok: bool)
    ensures ok <==> Consecutive(es)
  {
    var i := 1;
    while i < |es|
      invariant 1 <= i
      invariant forall j :: 1 <= j < i && j < |es| ==> ConsecutiveAt(es, j)
    {
      if es[i - 1].height + 1 != es[i].height || es[i - 1].hash != es[i].header.prev {
        assert !ConsecutiveAt(es, i);
        return false;
      }
      i := i + 1;
    }
    return true;
  }

  /** The value of a header list. */
  datatype Headers = Headers(entries: seq<HeaderEntry>, heights: map<Hash, nat>) {

    function Tip(): Hash {
      if entries == [] then NULL_HASH else entries[|entries| - 1].hash
    }

    /** `header_by_blockhash` */
    function Lookup(h: Hash): Option<HeaderEntry> {
      if h in heights && heights[h] < |entries| && entries[heights[h]].hash == h
      then Some(entries[heights[h]]) else None
    }

    /** `header_by_height` */
    function ByHeight(height: nat): Outcome<Option<HeaderEntry>> {
      if height >= |entries| then Ok(None)
      else if entries[height].height != height then Panic
      else Ok(Some(entries[height]))
    }

    /** `equals`: only the last entries are compared. */
    predicate Equals(other: Headers) {
      if entries == [] || other.entries == [] then entries == other.entries
      else entries[|entries| - 1] == other.entries[|other.entries| - 1]
    }

    /** `order` */
    function Order(hasher: Header -> Hash, hs: seq<Header>): Outcome<seq<HeaderEntry>> {
      if !HashLinked(hasher, hs) then Panic
      else if hs == [] then Ok([])
      else if hs[0].prev == NULL_HASH then Ok(Numbered(hasher, hs, 0))
      else
        match Lookup(hs[0].prev)
        case None => Panic
        case Some(e) => Ok(Numbered(hasher, hs, e.height + 1))
    }

    /** None of the assertions of `apply` fails. */
    predicate ApplyAccepts(es: seq<HeaderEntry>, tip: Hash) {
      if tip == NULL_HASH then es == []
      else if es == [] then Lookup(tip).Some?
      else
        && Consecutive(es)
        && tip == es[|es| - 1].hash
        && es[0].height <= |entries|
        && es[0].header.prev == if es[0].height > 0 then entries[es[0].height - 1].hash else NULL_HASH
    }

    /** How many old entries `apply` keeps. */
    function Kept(es: seq<HeaderEntry>, tip: Hash): (k: nat)
      requires ApplyAccepts(es, tip) && tip != NULL_HASH
      ensures k <= |entries|
    {
      if es != [] then es[0].height else heights[tip] + 1
    }

    /** The value `apply` leaves. */
    function Applied(es: seq<HeaderEntry>, tip: Hash): Headers
      requires ApplyAccepts(es, tip)
    {
      if tip == NULL_HASH then Headers([], map[])
      else Headers(entries[..Kept(es, tip)] + es, InsertAll(heights, es))
    }
  }

  const EMPTY := Headers([], map[])

  // ---------------------------------------------------------------- what `order` and `apply` accept

  /** Numbered from 0, each naming the one before it as its parent, the first one the null hash. */
  ghost predicate Linked(p: seq<HeaderEntry>) {
    forall i :: 0 <= i < |p| ==> LinkedAt(p, i)
  }

  ghost predicate LinkedAt(p: seq<HeaderEntry>, i: nat)
    requires i < |p|
  {
    p[i].height == i && p[i].hash != NULL_HASH && p[i].header.prev == if i == 0 then NULL_HASH else p[i - 1].hash
  }

  /** A linked list whose map has every entry; the map may hold anything else besides. */
  ghost predicate Listed(v: Headers) {
    Linked(v.entries) && forall i :: 0 <= i < |v.entries| ==> v.entries[i].hash in v.heights && v.heights[v.entries[i].hash] == i
  }

  ghost function TipOf(p: seq<HeaderEntry>): Hash {
    if p == [] then NULL_HASH else p[|p| - 1].hash
  }

  /** The first `k` entries of the list followed by `es` are linked and end at `tip`. */
  ghost predicate Extends(v: Headers, es: seq<HeaderEntry>, tip: Hash, k: nat) {
    k <= |v.entries| && Linked(v.entries[..k] + es) && TipOf(v.entries[..k] + es) == tip
  }

  lemma {:induction false} ConsecutiveHeights(es: seq<HeaderEntry>, j: nat)
    requires Consecutive(es) && j < |es|
    ensures es[j].height == es[0].height + j
  {
    if j > 0 {
      ConsecutiveHeights(es, j - 1);
      assert ConsecutiveAt(es, j);
    }
  }

  lemma LinkedPrefix(p: seq<HeaderEntry>, k: nat)
    requires Linked(p) && k <= |p|
    ensures Linked(p[..k])
  {
    forall i | 0 <= i < k
      ensures LinkedAt(p[..k], i)
    {
      assert LinkedAt(p, i);
    }
  }

  /** New entries that pass the assertions are linked on top of the entries kept. */
  lemma AcceptedLinks(v: Headers, es: seq<HeaderEntry>, tip: Hash)
    requires Listed(v) && es != [] && tip != NULL_HASH && v.ApplyAccepts(es, tip)
    requires forall i :: 0 <= i < |es| ==> es[i].hash != NULL_HASH
    ensures Extends(v, es, tip, es[0].height)
  {
    var k := es[0].height;
    forall i | 0 <= i < |es|
      ensures es[i].height == k + i && (i > 0 ==> es[i].header.prev == es[i - 1].hash)
    {
      ConsecutiveHeights(es, i);
      if i > 0 {
        assert ConsecutiveAt(es, i);
      }
    }
    OnTopLinked(v.entries, es, k);
  }

  lemma LinkedIsAccepted(v: Headers, es: seq<HeaderEntry>, tip: Hash, k: nat)
    requires Listed(v) && es != [] && Extends(v, es, tip, k)
    ensures tip != NULL_HASH && v.ApplyAccepts(es, tip) && es[0].height == k
  {
    hide Headers.Lookup;
    var p := v.entries[..k] + es;
    assert LinkedAt(p, k) && LinkedAt(p, |p| - 1);
    forall i | 1 <= i < |es|
      ensures ConsecutiveAt(es, i)
    {
      assert LinkedAt(p, k + i) && LinkedAt(p, k + i - 1);
      assert p[k + i] == es[i] && p[k + i - 1] == es[i - 1];
    }
  }

  /** Without new entries `apply` accepts exactly the tips in the list, and keeps what is below them. */
  lemma TrimExact(v: Headers, tip: Hash, k: nat)
    requires Listed(v)
    ensures Extends(v, [], tip, k) ==> v.ApplyAccepts([], tip) && v.Applied([], tip).entries == v.entries[..k]
    ensures v.ApplyAccepts([], tip) ==> exists n :: Extends(v, [], tip, n)
  {
    if k <= |v.entries| {
      assert v.entries[..k] + [] == v.entries[..k];
      if k > 0 {
        assert LinkedAt(v.entries, k - 1);
      }
    }
    if v.ApplyAccepts([], tip) {
      var n := if tip == NULL_HASH then 0 else v.heights[tip] + 1;
      LinkedPrefix(v.entries, n);
      assert v.entries[..n] + [] == v.entries[..n];
      assert Extends(v, [], tip, n);
    }
  }

  /**
   * `apply` passes all its assertions if and only if some prefix of the list followed by the new entries is linked and
   * ends at the tip, and then that is what it leaves.
   */
  lemma ApplyExact(v: Headers, es: seq<HeaderEntry>, tip: Hash)
    requires Listed(v) && forall i :: 0 <= i < |es| ==> es[i].hash != NULL_HASH
    ensures v.ApplyAccepts(es, tip) <==> exists k :: Extends(v, es, tip, k)
    ensures forall k: nat :: Extends(v, es, tip, k) ==> v.ApplyAccepts(es, tip) && v.Applied(es, tip).entries == v.entries[..k] + es
  {
    forall k: nat | Extends(v, es, tip, k)
      ensures v.ApplyAccepts(es, tip) && v.Applied(es, tip).entries == v.entries[..k] + es
    {
      if es == [] {
        TrimExact(v, tip, k);
      } else {
        LinkedIsAccepted(v, es, tip, k);
      }
    }
    if v.ApplyAccepts(es, tip) {
      if es == [] {
        TrimExact(v, tip, 0);
      } else {
        AcceptedLinks(v, es, tip);
      }
    }
  }

  /** These headers as entries from height `k` on. */
  ghost function EntriesFrom(hasher: Header -> Hash, hs: seq<Header>, k: nat): seq<HeaderEntry> {
    seq(|hs|, i requires 0 <= i < |hs| => HeaderEntry(k + i, hasher(hs[i]), hs[i]))
  }

  /** The headers, numbered from `k` on, link up with the first `k` entries of the list. */
  ghost predicate Connects(v: Headers, hasher: Header -> Hash, hs: seq<Header>, k: nat) {
    k <= |v.entries| && Linked(v.entries[..k] + EntriesFrom(hasher, hs, k))
  }

  lemma ConnectedLinks(v: Headers, hasher: Header -> Hash, hs: seq<Header>, k: nat)
    requires Listed(v) && hs != [] && k <= |v.entries| && HashLinked(hasher, hs)
    requires hs[0].prev == if k == 0 then NULL_HASH else v.entries[k - 1].hash
    requires forall i :: 0 <= i < |hs| ==> hasher(hs[i]) != NULL_HASH
    ensures Connects(v, hasher, hs, k)
  {
    var es := EntriesFrom(hasher, hs, k);
    forall i | 0 <= i < |es|
      ensures es[i].height == k + i && es[i].hash != NULL_HASH
      ensures es[i].header.prev == if i == 0 then hs[0].prev else es[i - 1].hash
    {
      if i > 0 {
        assert HashLinkedAt(hasher, hs, i);
      }
    }
    hide EntriesFrom;
    OnTopLinked(v.entries, es, k);
  }

  lemma OnTopLinked(p: seq<HeaderEntry>, es: seq<HeaderEntry>, k: nat)
    requires Linked(p) && k <= |p| && es != []
    requires forall i :: 0 <= i < |es| ==> es[i].height == k + i && es[i].hash != NULL_HASH
    requires forall i :: 0 < i < |es| ==> es[i].header.prev == es[i - 1].hash
    requires es[0].header.prev == if k == 0 then NULL_HASH else p[k - 1].hash
    ensures Linked(p[..k] + es)
  {
    var q := p[..k] + es;
    forall i | 0 <= i < |q|
      ensures LinkedAt(q, i)
    {
      if i < k {
        assert LinkedAt(p, i) && q[i] == p[i];
      } else {
        assert q[i] == es[i - k];
        assert i > k ==> q[i - 1] == es[i - k - 1];
      }
    }
  }

  lemma ConnectsOrders(v: Headers, hasher: Header -> Hash, hs: seq<Header>, k: nat)
    requires Listed(v) && hs != [] && Connects(v, hasher, hs, k)
    ensures v.Order(hasher, hs) == Ok(EntriesFrom(hasher, hs, k))
  {
    var p := v.entries[..k] + EntriesFrom(hasher, hs, k);
    forall i | 1 <= i < |hs|
      ensures HashLinkedAt(hasher, hs, i)
    {
      assert LinkedAt(p, k + i);
    }
    assert LinkedAt(p, k);
    if k > 0 {
      assert LinkedAt(v.entries, k - 1);
    }
  }

  /**
   * `order` accepts headers if and only if they link up with each other and, numbered from some height on, with the
   * list below that height, and then numbers them from there.
   */
  lemma OrderExact(v: Headers, hasher: Header -> Hash, hs: seq<Header>)
    requires Listed(v) && hs != [] && forall i :: 0 <= i < |hs| ==> hasher(hs[i]) != NULL_HASH
    ensures v.Order(hasher, hs).Ok? <==> exists k :: Connects(v, hasher, hs, k)
    ensures forall k: nat :: Connects(v, hasher, hs, k) ==> v.Order(hasher, hs) == Ok(EntriesFrom(hasher, hs, k))
  {
    forall k: nat | Connects(v, hasher, hs, k)
      ensures v.Order(hasher, hs) == Ok(EntriesFrom(hasher, hs, k))
    {
      ConnectsOrders(v, hasher, hs, k);
    }
    if v.Order(hasher, hs).Ok? {
      var k := if hs[0].prev == NULL_HASH then 0 else v.heights[hs[0].prev] + 1;
      ConnectedLinks(v, hasher, hs, k);
    }
  }

  class HeaderList {
    var headers: seq<HeaderEntry>
    var heights: map<Hash, nat>

    function View(): Headers
      reads this
    {
      Headers(headers, heights)
    }

    constructor ()
      ensures View() == EMPTY
    {
      headers, heights := [], map[];
    }

    method Tip() returns (tip: Hash)
      ensures tip == View().Tip()
    {
      tip := if |headers| == 0 then NULL_HASH else headers[|headers| - 1].hash;
    }

    /** The last loop of `apply`: its two assertions pass once the new entries are consecutive and connect. */
    method PushAll(es: seq<HeaderEntry>) returns (ok: bool)
      requires Consecutive(es)
      requires es != [] ==> es[0].height == |headers| && es[0].header.prev == View().Tip()
      modifies this
      ensures ok
      ensures headers == old(headers) + es && heights == InsertAll(old(heights), es)
    {
      for i := 0 to |es|
        invariant headers == old(headers) + es[..i]
        invariant heights == InsertAll(old(heights), es[..i])
        invariant i < |es| ==> es[i].height == |headers| && es[i].header.prev == View().Tip()
      {
        var current := Tip();
        if es[i].height != |headers| || es[i].header.prev != current {
          return false;
        }
        assert es[..i + 1][..i] == es[..i];
        assert i + 1 < |es| ==> ConsecutiveAt(es, i + 1);
        heights := heights[es[i].hash := es[i].height];
        headers := headers + [es[i]];
      }
      assert es[..|es|] == es;
      return true;
    }

    /**
     * `apply`; `ok` is false exactly when one of its assertions (or a vector index) would panic.
     * The two assertions inside the second loop never fail once the earlier ones hold.
     */
    method Apply(es: seq<HeaderEntry>, tip: Hash) returns (ok: bool)
      modifies this
      ensures ok <==> old(View()).ApplyAccepts(es, tip)
      ensures ok ==> View() == old(View()).Applied(es, tip)
    {
      if tip == NULL_HASH {
        if es != [] {
          return false;
        }
        headers, heights := [], map[];
        return true;
      }
      var linked := CheckConsecutive(es);
      if !linked {
        return false;
      }
      var newHeight: nat;
      if es != [] {
        if tip != es[|es| - 1].hash {
          return false;
        }
        newHeight := es[0].height;
        if newHeight > 0 && newHeight - 1 >= |headers| {
          return false;
        }
        var expected := if newHeight > 0 then headers[newHeight - 1].hash else NULL_HASH;
        if es[0].header.prev != expected {
          return false;
        }
      } else {
        if tip !in heights {
          return false;
        }
        newHeight := heights[tip] + 1;
        if newHeight > |headers| {
          return false;
        }
      }
      headers := headers[..newHeight];
      ok := PushAll(es);
      if !ok {
        return;
      }
      var last := Tip();
      if tip != last || tip !in heights {
        return false;
      }
      return true;
    }
  }
}
