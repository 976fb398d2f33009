/** The mempool index: a multimap counting, for every key, the rows of the tracked transactions. */
module Mempool {
  import opened ByteKeys
  import opened Rows
  import opened Store
  import opened Indexing

  type MultiMap = map<Bytes, seq<Bytes>>

  function TxRows(tx: Tx): seq<Row> {
    IndexTransaction(tx, NULL_HASH)
  }

  // ---------------------------------------------------------------- the multimap

  function AddRow(m: MultiMap, r: Row): MultiMap {
    m[r.key := (if r.key in m then m[r.key] else []) + [r.value]]
  }

  function AddRows(m: MultiMap, rows: seq<Row>): MultiMap {
    if rows == [] then m else AddRow(AddRows(m, rows[..|rows| - 1]), rows[|rows| - 1])
  }

  /** Pops the last value of the key; a missing key, an empty list or another value panics. */
  function RemoveRow(m: MultiMap, r: Row): Outcome<MultiMap> {
    if r.key !in m || m[r.key] == [] then Panic
    else
      var values := m[r.key];
      var n := |values| - 1;
      if values[n] != r.value then Panic
      else if n == 0 then Ok(m - {r.key})
      else Ok(m[r.key := values[..n]])
  }

  function RemoveRows(m: MultiMap, rows: seq<Row>): Outcome<MultiMap> {
    if rows == [] then Ok(m)
    else
      var before := RemoveRows(m, rows[..|rows| - 1]);
      if before.Ok? then RemoveRow(before.value, rows[|rows| - 1]) else Panic
  }

  /** What a reader sees: the last value under each key. */
  function View(m: MultiMap): Contents {
    map k | k in m && m[k] != [] :: m[k][|m[k]| - 1]
  }

  /** `range` from a lower bound on. */
  function RangeFrom(m: MultiMap, p: Bytes): seq<Bytes> {
    Ascending(set k | k in m && Leq(p, k))
  }

  /** No key has an empty list, as in every index of a tracked set. */
  ghost predicate NoEmpty(m: MultiMap) {
    forall k :: k in m ==> m[k] != []
  }

  /** Removing a row succeeds exactly when the index is one to which that row was added last, and undoes that. */
  lemma RemoveInvertsAdd(m: MultiMap, before: MultiMap, r: Row)
    requires NoEmpty(m)
    ensures RemoveRow(m, r) == Ok(before) <==> NoEmpty(before) && AddRow(before, r) == m
    ensures RemoveRow(m, r) == Panic <==> forall b: MultiMap :: NoEmpty(b) ==> AddRow(b, r) != m
  {
    if RemoveRow(m, r).Ok? {
      RemovedThenAdded(m, r);
    }
    forall b: MultiMap | NoEmpty(b) && AddRow(b, r) == m
      ensures RemoveRow(m, r) == Ok(b)
    {
      AddedThenRemoved(b, r);
    }
  }

  lemma RemovedThenAdded(m: MultiMap, r: Row)
    requires NoEmpty(m) && RemoveRow(m, r).Ok?
    ensures NoEmpty(RemoveRow(m, r).value) && AddRow(RemoveRow(m, r).value, r) == m
  {
    var values := m[r.key];
    assert values == values[..|values| - 1] + [r.value];
  }

  lemma AddedThenRemoved(m: MultiMap, r: Row)
    requires NoEmpty(m)
    ensures RemoveRow(AddRow(m, r), r) == Ok(m)
  {
    var values := if r.key in m then m[r.key] else [];
    assert (values + [r.value])[..|values|] == values;
    var added := AddRow(m, r);
    if r.key in m {
      assert added[r.key := values] == m;
    } else {
      assert added - {r.key} == m;
    }
  }

  class MempoolStore {
    var index: MultiMap

    constructor ()
      ensures index == map[]
    {
      index := map[];
    }

    method Add(tx: Tx)
      modifies this
      ensures index == AddRows(old(index), TxRows(tx))
    {
      var rows := TxRows(tx);
      for i := 0 to |rows|
        invariant index == AddRows(old(index), rows[..i])
      {
        assert rows[..i + 1][..i] == rows[..i];
        var key, value := rows[i].key, rows[i].value;
        var values := if key in index then index[key] else [];
        index := index[key := values + [value]];
      }
      assert rows[..|rows|] == rows;
    }

    /** `ok` is false exactly when `remove` would panic. */
    method Remove(tx: Tx) returns (ok: bool)
      modifies this
      ensures ok <==> RemoveRows(old(index), TxRows(tx)).Ok?
      ensures ok ==> index == RemoveRows(old(index), TxRows(tx)).value
    {
      hide TxRows;
      var rows := TxRows(tx);
      for i := 0 to |rows|
        invariant RemoveRows(old(index), rows[..i]) == Ok(index)
      {
        assert rows[..i + 1][..i] == rows[..i];
        ok := PopRow(rows[i].key, rows[i].value);
        if !ok {
          RemoveFails(old(index), rows, i + 1);
          return;
        }
      }
      assert rows[..|rows|] == rows;
      return true;
    }

    /** One row of a removal. */
    method PopRow(key: Bytes, value: Bytes) returns (ok: bool)
      modifies this
      ensures ok <==> RemoveRow(old(index), Row(key, value)).Ok?
      ensures ok ==> RemoveRow(old(index), Row(key, value)) == Ok(index)
      ensures !ok ==> index == old(index)
    {
      if key !in index || |index[key]| == 0 || index[key][|index[key]| - 1] != value {
        return false;
      }
      var values := index[key][..|index[key]| - 1];
      index := if |values| == 0 then index - {key} else index[key := values];
      return true;
    }

    method Get(key: Bytes) returns (r: Option<Bytes>)
      ensures r == if key in View(index) then Some(View(index)[key]) else None
    {
      r := if key in index && |index[key]| > 0 then Some(index[key][|index[key]| - 1]) else None;
    }

    method Scan(prefix: Bytes) returns (rows: seq<Row>)
      ensures rows == PrefixRows(View(index), prefix)
    {
      hide Gathered;
      hide StrictlyAscending;
      hide Leq;
      var ks := RangeFrom(index, prefix);
      RangeAscends(index, prefix);
      ghost var view := View(index);
      ghost var got: seq<Bytes> := [];
      rows := [];
      NothingGathered(ks, view);
      var i := 0;
      while i < |ks| && prefix <= ks[i]
        invariant 0 <= i <= |ks|
        invariant forall j :: 0 <= j < i ==> prefix <= ks[j]
        invariant Gathered(ks, i, view, got, rows)
      {
        Gather(ks, i, view, got, rows);
        var values := index[ks[i]];
        if |values| > 0 {
          rows := rows + [Row(ks[i], values[|values| - 1])];
          got := got + [ks[i]];
        }
        i := i + 1;
      }
      GatheredAll(index, prefix, i, got, rows);
    }
  }

  /** The iteration runs over keys of the map in ascending order. */
  lemma RangeAscends(m: MultiMap, prefix: Bytes)
    ensures StrictlyAscending(RangeFrom(m, prefix))
    ensures forall j :: 0 <= j < |RangeFrom(m, prefix)| ==> RangeFrom(m, prefix)[j] in m
  {
    var ks := RangeFrom(m, prefix);
    assert forall j :: 0 <= j < |ks| ==> ks[j] in ks;
  }

  /** What the scan has collected from the first `i` keys: the ones with a value, and their rows. */
  ghost predicate Gathered(ks: seq<Bytes>, i: nat, view: Contents, got: seq<Bytes>, rows: seq<Row>)
    requires i <= |ks|
  {
    && StrictlyAscending(got)
    && (forall k :: k in got <==> k in ks[..i] && k in view)
    && (forall j :: 0 <= j < |got| ==> got[j] in view)
    && rows == RowsAt(view, got)
  }

  lemma NothingGathered(ks: seq<Bytes>, view: Contents)
    ensures Gathered(ks, 0, view, [], [])
  {
  }

  lemma Gather(ks: seq<Bytes>, i: nat, view: Contents, got: seq<Bytes>, rows: seq<Row>)
    requires StrictlyAscending(ks) && i < |ks| && Gathered(ks, i, view, got, rows)
    ensures ks[i] in view ==> Gathered(ks, i + 1, view, got + [ks[i]], rows + [Row(ks[i], view[ks[i]])])
    ensures ks[i] !in view ==> Gathered(ks, i + 1, view, got, rows)
  {
    PushKey(ks, i, view, got);
    hide StrictlyAscending;
    if ks[i] in view {
      var more := got + [ks[i]];
      assert forall j :: 0 <= j < |more| ==> more[j] in view;
      assert RowsAt(view, more) == rows + [Row(ks[i], view[ks[i]])];
    }
  }

  lemma GatheredAll(m: MultiMap, prefix: Bytes, n: nat, got: seq<Bytes>, rows: seq<Row>)
    requires n <= |RangeFrom(m, prefix)|
    requires forall j :: 0 <= j < n ==> prefix <= RangeFrom(m, prefix)[j]
    requires n < |RangeFrom(m, prefix)| ==> !(prefix <= RangeFrom(m, prefix)[n])
    requires Gathered(RangeFrom(m, prefix), n, View(m), got, rows)
    ensures rows == PrefixRows(View(m), prefix)
  {
    hide StrictlyAscending;
    ScanEnds(m, prefix, n, got);
  }

  /** The next key of the iteration extends an ascending selection of the earlier ones. */
  lemma PushKey(ks: seq<Bytes>, i: nat, view: Contents, got: seq<Bytes>)
    requires StrictlyAscending(ks) && i < |ks| && StrictlyAscending(got)
    requires forall k :: k in got <==> k in ks[..i] && k in view
    ensures StrictlyAscending(got + [ks[i]])
    ensures forall k :: k in ks[..i + 1] <==> k in ks[..i] || k == ks[i]
  {
    forall j | 0 <= j < |got|
      ensures Leq(got[j], ks[i]) && got[j] != ks[i]
    {
      assert got[j] in got;
      var n :| 0 <= n < i && ks[n] == got[j];
    }
    assert ks[..i + 1] == ks[..i] + [ks[i]];
  }

  /** Keys with an empty value list are skipped, and stopping at the first key without the prefix loses nothing. */
  lemma ScanEnds(m: MultiMap, p: Bytes, n: nat, got: seq<Bytes>)
    requires n <= |RangeFrom(m, p)|
    requires forall j :: 0 <= j < n ==> p <= RangeFrom(m, p)[j]
    requires n < |RangeFrom(m, p)| ==> !(p <= RangeFrom(m, p)[n])
    requires StrictlyAscending(got)
    requires forall k :: k in got <==> k in RangeFrom(m, p)[..n] && k in View(m)
    ensures got == Ascending(set k | k in View(m) && p <= k)
  {
    var ks := RangeFrom(m, p);
    var matching := set k | k in View(m) && p <= k;
    forall k
      ensures k in got <==> k in Ascending(matching)
    {
      if k in got {
        var i :| 0 <= i < n && ks[i] == k;
      }
      if k in matching {
        PrefixLeq(p, k);
        assert k in ks;
        var i :| 0 <= i < |ks| && ks[i] == k;
        if i < n {
          assert ks[..n][i] == k;
        } else {
          assert ks[n] in ks;
          ScanBeyond(ks, p, n, i);
        }
      }
    }
    AscendingUnique(got, Ascending(matching));
  }

  lemma {:induction false} RemoveFails(m: MultiMap, rows: seq<Row>, i: nat)
    requires i <= |rows| && !RemoveRows(m, rows[..i]).Ok?
    ensures !RemoveRows(m, rows).Ok?
  {
    if i < |rows| {
      var n := |rows| - 1;
      assert rows[..n][..i] == rows[..i];
      RemoveFails(m, rows[..n], i);
    } else {
      assert rows[..i] == rows;
    }
  }

  // ---------------------------------------------------------------- counting

  /** The only value a mempool row with this key can carry. */
  function ValueOf(k: Bytes): Bytes {
    if k != [] && k[0] == TAG_TX then NULL_HASH else []
  }

  function KeyBag(rows: seq<Row>): multiset<Bytes> {
    if rows == [] then multiset{} else KeyBag(rows[..|rows| - 1]) + multiset{rows[|rows| - 1].key}
  }

  function Repeated(v: Bytes, n: nat): (s: seq<Bytes>)
    ensures |s| == n
  {
    seq(n, _ => v)
  }

  /** The multimap holding each key as often as the bag does, always with the key's own value. */
  function Expanded(bag: multiset<Bytes>): MultiMap {
    map k | k in bag :: Repeated(ValueOf(k), bag[k])
  }

  ghost predicate WellValued(rows: seq<Row>) {
    forall i :: 0 <= i < |rows| ==> rows[i].value == ValueOf(rows[i].key)
  }

  lemma RowsWellValued(tx: Tx)
    ensures WellValued(TxRows(tx))
  {
    var rows := TxRows(tx);
    forall i | 0 <= i < |rows|
      ensures rows[i].value == ValueOf(rows[i].key)
    {
      TransactionRows(tx, NULL_HASH, rows[i]);
      KeyTags(tx, rows[i].key);
    }
  }

  lemma AddRowExpands(bag: multiset<Bytes>, r: Row)
    requires r.value == ValueOf(r.key)
    ensures AddRow(Expanded(bag), r) == Expanded(bag + multiset{r.key})
  {
    var m, m' := AddRow(Expanded(bag), r), Expanded(bag + multiset{r.key});
    assert m.Keys == m'.Keys;
    assert m[r.key] == m'[r.key];
    assert forall k :: k in m && k != r.key ==> m[k] == m'[k];
  }

  lemma {:induction false} AddRowsExpands(bag: multiset<Bytes>, rows: seq<Row>)
    requires WellValued(rows)
    ensures AddRows(Expanded(bag), rows) == Expanded(bag + KeyBag(rows))
  {
    if rows == [] {
      assert bag + KeyBag(rows) == bag;
    } else {
      var n := |rows| - 1;
      AddRowsExpands(bag, rows[..n]);
      AddRowExpands(bag + KeyBag(rows[..n]), rows[n]);
      assert bag + KeyBag(rows) == bag + KeyBag(rows[..n]) + multiset{rows[n].key};
    }
  }

  lemma RemoveRowShrinks(bag: multiset<Bytes>, r: Row)
    requires r.value == ValueOf(r.key) && r.key in bag
    ensures RemoveRow(Expanded(bag), r) == Ok(Expanded(bag - multiset{r.key}))
  {
    var m, m' := RemoveRow(Expanded(bag), r), Expanded(bag - multiset{r.key});
    assert m.Ok?;
    assert m.value.Keys == m'.Keys;
    assert r.key in m' ==> m.value[r.key] == m'[r.key];
    assert forall k :: k in m' && k != r.key ==> m.value[k] == m'[k];
    assert m.value == m';
  }

  lemma {:induction false} RemoveRowsShrinks(bag: multiset<Bytes>, rows: seq<Row>)
    requires WellValued(rows) && KeyBag(rows) <= bag
    ensures RemoveRows(Expanded(bag), rows) == Ok(Expanded(bag - KeyBag(rows)))
  {
    if rows == [] {
      assert bag - KeyBag(rows) == bag;
    } else {
      var n := |rows| - 1;
      RemoveRowsShrinks(bag, rows[..n]);
      RemoveRowShrinks(bag - KeyBag(rows[..n]), rows[n]);
      assert bag - KeyBag(rows) == bag - KeyBag(rows[..n]) - multiset{rows[n].key};
    }
  }

  // ---------------------------------------------------------------- the tracked transactions

  ghost function Sum(bags: map<Hash, multiset<Bytes>>): multiset<Bytes>
    decreases bags.Keys
  {
    if bags.Keys == {} then multiset{}
    else
      var h :| h in bags.Keys;
      bags[h] + Sum(bags - {h})
  }

  /** The sum does not depend on the order in which the bags are visited. */
  lemma {:induction false} SumWithout(bags: map<Hash, multiset<Bytes>>, h: Hash)
    requires h in bags
    ensures Sum(bags) == bags[h] + Sum(bags - {h})
    decreases bags.Keys
  {
    var g := SumPick(bags);
    hide Sum;
    if g != h {
      SumWithout(bags - {g}, h);
      SumWithout(bags - {h}, g);
      assert bags - {g} - {h} == bags - {h} - {g};
      SumSwap(bags[g], bags[h], Sum(bags - {g} - {h}));
    }
  }

  lemma SumPick(bags: map<Hash, multiset<Bytes>>) returns (g: Hash)
    requires bags.Keys != {}
    ensures g in bags && Sum(bags) == bags[g] + Sum(bags - {g})
  {
    g :| g in bags.Keys && Sum(bags) == bags[g] + Sum(bags - {g});
  }

  lemma SumSwap(a: multiset<Bytes>, b: multiset<Bytes>, c: multiset<Bytes>)
    ensures a + (b + c) == b + (a + c)
  {
  }

  ghost function Bags(items: map<Hash, Tx>): map<Hash, multiset<Bytes>> {
    map h | h in items :: KeyBag(TxRows(items[h]))
  }

  /** The keys of all rows of all tracked transactions, with multiplicity. */
  ghost function TotalBag(items: map<Hash, Tx>): multiset<Bytes> {
    Sum(Bags(items))
  }

  lemma TotalBagWithout(items: map<Hash, Tx>, h: Hash)
    requires h in items
    ensures TotalBag(items) == KeyBag(TxRows(items[h])) + TotalBag(items - {h})
  {
    hide KeyBag;
    SumWithout(Bags(items), h);
    assert Bags(items) - {h} == Bags(items - {h});
  }

  lemma TotalBagWith(items: map<Hash, Tx>, h: Hash, tx: Tx)
    requires h !in items
    ensures TotalBag(items[h := tx]) == TotalBag(items) + KeyBag(TxRows(tx))
  {
    hide TotalBag;
    TotalBagWithout(items[h := tx], h);
    assert items[h := tx] - {h} == items;
  }

  /** The index of a set of tracked transactions: a function of the set alone. */
  ghost function IndexFor(items: map<Hash, Tx>): MultiMap {
    Expanded(TotalBag(items))
  }

  lemma AddTracks(items: map<Hash, Tx>, h: Hash, tx: Tx)
    requires h !in items
    ensures AddRows(IndexFor(items), TxRows(tx)) == IndexFor(items[h := tx])
  {
    RowsWellValued(tx);
    AddRowsExpands(TotalBag(items), TxRows(tx));
    TotalBagWith(items, h, tx);
  }

  /** Removing a tracked transaction never panics, whatever keys it shares with itself or with others. */
  lemma RemoveUntracks(items: map<Hash, Tx>, h: Hash)
    requires h in items
    ensures RemoveRows(IndexFor(items), TxRows(items[h])) == Ok(IndexFor(items - {h}))
  {
    RowsWellValued(items[h]);
    TotalBagWithout(items, h);
    RemoveRowsShrinks(TotalBag(items), TxRows(items[h]));
    assert TotalBag(items) - KeyBag(TxRows(items[h])) == TotalBag(items - {h});
  }

  /** Each key holds one value per row of a tracked transaction with that key, all equal, and no list is empty. */
  lemma IndexCounts(items: map<Hash, Tx>, k: Bytes)
    ensures k in IndexFor(items) <==> TotalBag(items)[k] > 0
    ensures k in IndexFor(items) ==> |IndexFor(items)[k]| == TotalBag(items)[k] > 0
    ensures k in IndexFor(items) ==> forall v :: v in IndexFor(items)[k] ==> v == ValueOf(k)
  {
  }

  lemma {:induction false} KeyBagMember(rows: seq<Row>, k: Bytes)
    ensures k in KeyBag(rows) <==> Puts(rows, k)
  {
    if rows != [] {
      var n := |rows| - 1;
      KeyBagMember(rows[..n], k);
      if Puts(rows[..n], k) {
        var i :| 0 <= i < n && rows[..n][i].key == k;
        assert rows[i].key == k;
      }
      if Puts(rows, k) {
        var i :| 0 <= i < |rows| && rows[i].key == k;
        assert i < n ==> rows[..n][i].key == k;
      }
    }
  }

  lemma TxKeysInBag(tx: Tx, k: Bytes)
    ensures k in KeyBag(TxRows(tx)) <==> HasKey(tx, k)
  {
    var rows := TxRows(tx);
    KeyBagMember(rows, k);
    if Puts(rows, k) {
      var i :| 0 <= i < |rows| && rows[i].key == k;
      TransactionRows(tx, NULL_HASH, rows[i]);
    }
    if HasKey(tx, k) {
      var r := Row(k, if k == TxKey(tx.id) then NULL_HASH else []);
      TransactionRows(tx, NULL_HASH, r);
      assert r in rows;
    }
  }

  lemma {:induction false} SumMember(bags: map<Hash, multiset<Bytes>>, k: Bytes)
    ensures k in Sum(bags) <==> exists h :: h in bags && k in bags[h]
    decreases bags.Keys
  {
    if bags.Keys != {} {
      var g := SumPick(bags);
      hide Sum;
      var rest := bags - {g};
      SumMember(rest, k);
      if k in Sum(rest) {
        var h :| h in rest && k in rest[h];
        assert h in bags && k in bags[h];
      }
      forall h | h in bags && k in bags[h]
        ensures k in Sum(bags)
      {
        if h != g {
          assert h in rest && k in rest[h];
        }
      }
    }
  }

  lemma TrackedKeys(items: map<Hash, Tx>, k: Bytes)
    ensures k in TotalBag(items) <==> exists h :: h in items && HasKey(items[h], k)
  {
    SumMember(Bags(items), k);
    forall h | h in items
      ensures k in Bags(items)[h] <==> HasKey(items[h], k)
    {
      TxKeysInBag(items[h], k);
    }
  }

  /** A reader finds exactly the keys of the tracked transactions, with the null hash as every block. */
  lemma ReaderSees(items: map<Hash, Tx>, k: Bytes)
    ensures k in View(IndexFor(items)) <==> exists h :: h in items && HasKey(items[h], k)
    ensures k in View(IndexFor(items)) ==> View(IndexFor(items))[k] == ValueOf(k)
  {
    IndexCounts(items, k);
    TrackedKeys(items, k);
  }

  // ---------------------------------------------------------------- the tracker

  /** The node's answer to `gettransactions` for these ids; an id it no longer knows fails the whole request. */
  type Answers = map<Hash, Tx>

  ghost predicate Honest(answers: Answers, wanted: set<Hash>) {
    forall h :: h in wanted && h in answers ==> answers[h].id == h
  }

  /** What stays tracked when the node reports `mempool`. */
  ghost function NextItems(items: map<Hash, Tx>, mempool: set<Hash>, answers: Answers): map<Hash, Tx>
    requires mempool - items.Keys <= answers.Keys
  {
    map h | h in mempool :: if h in items then items[h] else answers[h]
  }

  class Tracker {
    var items: map<Hash, Tx>
    const store: MempoolStore

    ghost predicate Valid()
      reads this, store
    {
      && store.index == IndexFor(items)
      && forall h :: h in items ==> items[h].id == h
    }

    constructor ()
      ensures Valid() && fresh(store) && items == map[]
    {
      items := map[];
      store := new MempoolStore();
    }

    method AddTx(txid: Hash, tx: Tx)
      requires Valid() && txid !in items && tx.id == txid
      modifies this, store
      ensures Valid() && items == old(items)[txid := tx]
    {
      AddTracks(items, txid, tx);
      store.Add(tx);
      items := items[txid := tx];
    }

    method RemoveTx(txid: Hash) returns (ok: bool)
      requires Valid() && txid in items
      modifies this, store
      ensures ok && Valid() && items == old(items) - {txid}
    {
      var tx := items[txid];
      RemoveUntracks(items, txid);
      items := items - {txid};
      ok := store.Remove(tx);
    }

    /**
     * `Tracker::update`. A failed listing is an error, a failed fetch keeps the mempool; otherwise exactly
     * the reported transactions are tracked. The only panic is a node answering with another transaction.
     */
    method Update(mempool: Option<set<Hash>>, answers: Answers) returns (r: Outcome<()>)
      requires Valid()
      modifies this, store
      ensures Valid()
      ensures mempool.None? ==> r == Err && items == old(items)
      ensures mempool.Some? && !(mempool.value - old(items).Keys <= answers.Keys) ==> r == Ok(()) && items == old(items)
      ensures mempool.Some? && mempool.value - old(items).Keys <= answers.Keys ==>
                (r == Ok(()) <==> Honest(answers, mempool.value - old(items).Keys))
      ensures mempool.Some? && mempool.value - old(items).Keys <= answers.Keys && r == Ok(()) ==>
                items == NextItems(old(items), mempool.value, answers)
    {
      hide IndexFor;
      if mempool.None? {
        return Err;
      }
      var oldTxids := items.Keys;
      var added := mempool.value - oldTxids;
      if !(added <= answers.Keys) {
        return Ok(());
      }
      var ok := AddAll(added, answers);
      if !ok {
        return Panic;
      }
      RemoveAll(oldTxids - mempool.value);
      assert items == NextItems(old(items), mempool.value, answers);
      return Ok(());
    }

    method AddAll(added: set<Hash>, answers: Answers) returns (ok: bool)
      requires Valid() && added !! items.Keys && added <= answers.Keys
      modifies this, store
      ensures Valid()
      ensures ok <==> Honest(answers, added)
      ensures ok ==> items.Keys == old(items).Keys + added
      ensures ok ==> forall h :: h in items ==> items[h] == if h in added then answers[h] else old(items)[h]
    {
      hide IndexFor;
      var todo := added;
      while todo != {}
        invariant Valid() && todo <= added
        invariant items.Keys == old(items).Keys + (added - todo)
        invariant forall h :: h in added && h !in todo ==> answers[h].id == h
        invariant forall h :: h in items ==> items[h] == if h in added then answers[h] else old(items)[h]
        decreases todo
      {
        var txid :| txid in todo;
        if answers[txid].id != txid {
          return false;
        }
        AddTx(txid, answers[txid]);
        todo := todo - {txid};
      }
      return true;
    }

    method RemoveAll(removed: set<Hash>)
      requires Valid() && removed <= items.Keys
      modifies this, store
      ensures Valid() && items.Keys == old(items).Keys - removed
      ensures forall h :: h in items ==> items[h] == old(items)[h]
    {
      hide IndexFor;
      var todo := removed;
      while todo != {}
        invariant Valid() && todo <= removed
        invariant items.Keys == old(items).Keys - (removed - todo)
        invariant forall h :: h in items ==> items[h] == old(items)[h]
        decreases todo
      {
        var txid :| txid in todo;
        var ok := RemoveTx(txid);
        assert ok;
        todo := todo - {txid};
      }
    }
  }
}
