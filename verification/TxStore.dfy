/** What the three prefix scans of the query layer find in a store that serves a set of transactions. */
module TxStore {
  import opened ByteKeys
  import opened Rows
  import opened Store
  import opened Indexing

  predicate IsTxRowKey(k: Bytes) {
    k != [] && (k[0] == TAG_INPUT || k[0] == TAG_OUTPUT || k[0] == TAG_TX)
  }

  ghost predicate SomeTxHas(txs: set<Tx>, k: Bytes) {
    exists tx :: tx in txs && HasKey(tx, k)
  }

  /** The transaction rows of the store are exactly those of `txs`, each `T` row holding some block hash. */
  ghost predicate Serves(s: Contents, txs: set<Tx>) {
    forall k {:trigger ServesAt(s, txs, k)} :: ServesAt(s, txs, k)
  }

  ghost predicate ServesAt(s: Contents, txs: set<Tx>, k: Bytes) {
    && (IsTxRowKey(k) ==> (k in s <==> SomeTxHas(txs, k)))
    && (k in s && k != [] && k[0] == TAG_TX ==> |s[k]| == HASH_LEN)
  }

  /** The block recorded for a transaction; the null hash if there is none. */
  function RecordedBlock(s: Contents, txid: Hash): Hash {
    if TxKey(txid) in s && |s[TxKey(txid)]| == HASH_LEN then s[TxKey(txid)] else NULL_HASH
  }

  // ---------------------------------------------------------------- decoding a scan

  function DecodeAll<T>(f: Row -> Outcome<T>, rows: seq<Row>): Outcome<seq<T>> {
    if rows == [] then Ok([])
    else
      var n := |rows| - 1;
      var before, last := DecodeAll(f, rows[..n]), f(rows[n]);
      if before.Ok? && last.Ok? then Ok(before.value + [last.value]) else Panic
  }

  lemma {:induction false} DecodeAllOk<T>(f: Row -> Outcome<T>, rows: seq<Row>)
    requires forall i :: 0 <= i < |rows| ==> f(rows[i]).Ok?
    ensures DecodeAll(f, rows).Ok? && |DecodeAll(f, rows).value| == |rows|
    ensures forall i :: 0 <= i < |rows| ==> DecodeAll(f, rows).value[i] == f(rows[i]).value
  {
    if rows != [] {
      var n := |rows| - 1;
      DecodeAllOk(f, rows[..n]);
      assert forall i :: 0 <= i < n ==> rows[..n][i] == rows[i];
    }
  }

  /** A scan lists each matching key once, in key order. */
  lemma ScanRows(s: Contents, p: Bytes)
    ensures forall i :: 0 <= i < |PrefixRows(s, p)| ==>
              PrefixRows(s, p)[i].key in s && p <= PrefixRows(s, p)[i].key && PrefixRows(s, p)[i].value == s[PrefixRows(s, p)[i].key]
    ensures forall i, j :: 0 <= i < j < |PrefixRows(s, p)| ==> Precedes(PrefixRows(s, p)[i].key, PrefixRows(s, p)[j].key)
  {
    var ks := Ascending(set k | k in s && p <= k);
    forall i | 0 <= i < |ks|
      ensures ks[i] in s && p <= ks[i]
    {
      assert ks[i] in ks;
    }
  }

  lemma ScanFinds(s: Contents, p: Bytes, k: Bytes) returns (i: nat)
    requires k in s && p <= k
    ensures i < |PrefixRows(s, p)| && PrefixRows(s, p)[i] == Row(k, s[k])
  {
    var ks := Ascending(set k | k in s && p <= k);
    assert k in ks;
    i :| 0 <= i < |ks| && ks[i] == k;
  }

  function DecodeOutputRow(r: Row): Outcome<TxOutRow> {
    DecodeOutput(r.key)
  }

  /** `TxInRow::from_row(row).txid_prefix` */
  function DecodeSpender(r: Row): Outcome<HashPrefix> {
    match DecodeInput(r.key)
    case Ok(row) => Ok(row.txidPrefix)
    case _ => Panic
  }

  /** `get_txoutrows_by_script_hash` */
  function OutputRowsFor(s: Contents, scriptHash: Hash): Outcome<seq<TxOutRow>> {
    DecodeAll(DecodeOutputRow, PrefixRows(s, OutputFilter(scriptHash)))
  }

  /** `get_prefixes_by_funding_txo` */
  function SpenderPrefixes(s: Contents, txid: Hash, vout: nat): Outcome<seq<HashPrefix>> {
    DecodeAll(DecodeSpender, PrefixRows(s, InputFilter(txid, vout)))
  }

  /** `get_txrows_by_prefix` */
  function TxRowsFor(s: Contents, p: HashPrefix): Outcome<seq<TxRow>> {
    DecodeAll(DecodeTx, PrefixRows(s, TxFilterPrefix(p)))
  }

  // ---------------------------------------------------------------- transaction rows

  lemma TxScanKey(s: Contents, txs: set<Tx>, p: HashPrefix, k: Bytes) returns (tx: Tx)
    requires Serves(s, txs) && k in s && TxFilterPrefix(p) <= k
    ensures tx in txs && k == TxKey(tx.id) && PrefixOfHash(tx.id) == p && |s[k]| == HASH_LEN
  {
    FilterKeepsTag(TxFilterPrefix(p), k);
    assert ServesAt(s, txs, k);
    tx :| tx in txs && HasKey(tx, k);
    KeyTags(tx, k);
    TxFilterMatches(p, tx.id);
  }

  lemma TxRowKept(s: Contents, txs: set<Tx>, tx: Tx)
    requires Serves(s, txs) && tx in txs
    ensures TxKey(tx.id) in s && |s[TxKey(tx.id)]| == HASH_LEN
  {
    assert HasKey(tx, TxKey(tx.id)) && TxKey(tx.id)[0] == TAG_TX;
    assert ServesAt(s, txs, TxKey(tx.id));
  }

  /** The transactions found under a prefix: one row per transaction id, naming its recorded block, in key order. */
  lemma TxRowsFound(s: Contents, txs: set<Tx>, p: HashPrefix)
    requires Serves(s, txs)
    ensures TxRowsFor(s, p).Ok?
    ensures forall i :: 0 <= i < |TxRowsFor(s, p).value| ==> IsTxRow(s, txs, p, TxRowsFor(s, p).value[i])
    ensures forall i, j :: 0 <= i < j < |TxRowsFor(s, p).value| ==>
              Precedes(TxKey(TxRowsFor(s, p).value[i].txid), TxKey(TxRowsFor(s, p).value[j].txid))
  {
    hide Serves;
    var rows := PrefixRows(s, TxFilterPrefix(p));
    ScanRows(s, TxFilterPrefix(p));
    forall i | 0 <= i < |rows|
      ensures DecodeTx(rows[i]).Ok? && IsTxRow(s, txs, p, DecodeTx(rows[i]).value) && rows[i].key == TxKey(DecodeTx(rows[i]).value.txid)
    {
      var tx := TxScanKey(s, txs, p, rows[i].key);
      TxRoundTrip(TxRow(tx.id, rows[i].value));
      assert rows[i] == EncodeTx(TxRow(tx.id, rows[i].value));
    }
    DecodeAllOk(DecodeTx, rows);
  }

  ghost predicate IsTxRow(s: Contents, txs: set<Tx>, p: HashPrefix, r: TxRow) {
    PrefixOfHash(r.txid) == p && r.blockHash == RecordedBlock(s, r.txid) && exists tx :: tx in txs && tx.id == r.txid
  }

  lemma TxRowFound(s: Contents, txs: set<Tx>, tx: Tx)
    requires Serves(s, txs) && tx in txs
    ensures TxRowsFor(s, PrefixOfHash(tx.id)).Ok?
    ensures TxRow(tx.id, RecordedBlock(s, tx.id)) in TxRowsFor(s, PrefixOfHash(tx.id)).value
  {
    hide Serves;
    var p, k := PrefixOfHash(tx.id), TxKey(tx.id);
    TxRowKept(s, txs, tx);
    TxFilterMatches(p, tx.id);
    TxRowsFound(s, txs, p);
    var i := ScanFinds(s, TxFilterPrefix(p), k);
    TxRoundTrip(TxRow(tx.id, s[k]));
    TxDecodes(s, txs, p);
    assert TxRowsFor(s, p).value[i] == TxRow(tx.id, s[k]);
  }

  lemma TxDecodes(s: Contents, txs: set<Tx>, p: HashPrefix)
    requires Serves(s, txs)
    ensures TxRowsFor(s, p).Ok? && |TxRowsFor(s, p).value| == |PrefixRows(s, TxFilterPrefix(p))|
    ensures forall i :: 0 <= i < |PrefixRows(s, TxFilterPrefix(p))| ==>
              DecodeTx(PrefixRows(s, TxFilterPrefix(p))[i]) == Ok(TxRowsFor(s, p).value[i])
  {
    hide Serves;
    var rows := PrefixRows(s, TxFilterPrefix(p));
    ScanRows(s, TxFilterPrefix(p));
    forall i | 0 <= i < |rows|
      ensures DecodeTx(rows[i]).Ok?
    {
      var tx := TxScanKey(s, txs, p, rows[i].key);
    }
    DecodeAllOk(DecodeTx, rows);
  }

  // ---------------------------------------------------------------- output rows

  /** `tx` pays a script with the prefix of `scriptHash` at `vout`. */
  ghost predicate PaysPrefix(tx: Tx, vout: nat, scriptHash: Hash) {
    vout < |tx.outputs| && PrefixOfHash(tx.outputs[vout]) == PrefixOfHash(scriptHash)
  }

  ghost predicate IsOutputRow(txs: set<Tx>, scriptHash: Hash, r: TxOutRow) {
    exists tx, v :: tx in txs && PaysPrefix(tx, v, scriptHash) && r == TxOutRow(PrefixOfHash(scriptHash), PrefixOfHash(tx.id), Truncated(v))
  }

  lemma OutputScanKey(s: Contents, txs: set<Tx>, scriptHash: Hash, k: Bytes)
    requires Serves(s, txs) && k in s && OutputFilter(scriptHash) <= k
    ensures DecodeOutput(k).Ok? && IsOutputRow(txs, scriptHash, DecodeOutput(k).value) && k == OutputKey(DecodeOutput(k).value)
  {
    FilterKeepsTag(OutputFilter(scriptHash), k);
    assert ServesAt(s, txs, k);
    var tx :| tx in txs && HasKey(tx, k);
    KeyTags(tx, k);
    var v :| 0 <= v < |tx.outputs| && k == PayKey(tx.outputs[v], tx.id, v);
    var r := TxOutRow(PrefixOfHash(tx.outputs[v]), PrefixOfHash(tx.id), Truncated(v));
    OutputFilterMatches(scriptHash, r);
    OutputRoundTrip(r);
    assert PaysPrefix(tx, v, scriptHash);
  }

  /** The output rows found for a script: one per pair of transaction prefix and truncated index, in key order. */
  lemma OutputRowsFound(s: Contents, txs: set<Tx>, scriptHash: Hash)
    requires Serves(s, txs)
    ensures OutputRowsFor(s, scriptHash).Ok?
    ensures forall i :: 0 <= i < |OutputRowsFor(s, scriptHash).value| ==> IsOutputRow(txs, scriptHash, OutputRowsFor(s, scriptHash).value[i])
    ensures forall i, j :: 0 <= i < j < |OutputRowsFor(s, scriptHash).value| ==>
              Precedes(OutputKey(OutputRowsFor(s, scriptHash).value[i]), OutputKey(OutputRowsFor(s, scriptHash).value[j]))
  {
    hide Serves;
    var rows := PrefixRows(s, OutputFilter(scriptHash));
    ScanRows(s, OutputFilter(scriptHash));
    forall i | 0 <= i < |rows|
      ensures DecodeOutputRow(rows[i]).Ok? && IsOutputRow(txs, scriptHash, DecodeOutputRow(rows[i]).value)
      ensures rows[i].key == OutputKey(DecodeOutputRow(rows[i]).value)
    {
      OutputScanKey(s, txs, scriptHash, rows[i].key);
    }
    DecodeAllOk(DecodeOutputRow, rows);
  }

  lemma OutputRowFound(s: Contents, txs: set<Tx>, scriptHash: Hash, tx: Tx, v: nat)
    requires Serves(s, txs) && tx in txs && PaysPrefix(tx, v, scriptHash)
    ensures OutputRowsFor(s, scriptHash).Ok?
    ensures TxOutRow(PrefixOfHash(scriptHash), PrefixOfHash(tx.id), Truncated(v)) in OutputRowsFor(s, scriptHash).value
  {
    var k := PayKey(tx.outputs[v], tx.id, v);
    var r := TxOutRow(PrefixOfHash(scriptHash), PrefixOfHash(tx.id), Truncated(v));
    assert k == OutputKey(r) && k[0] == TAG_OUTPUT && HasKey(tx, k);
    assert ServesAt(s, txs, k);
    OutputFilterMatches(scriptHash, r);
    OutputRoundTrip(r);
    hide Serves;
    var i := ScanFinds(s, OutputFilter(scriptHash), k);
    ScanRows(s, OutputFilter(scriptHash));
    var rows := PrefixRows(s, OutputFilter(scriptHash));
    forall j | 0 <= j < |rows|
      ensures DecodeOutputRow(rows[j]).Ok?
    {
      OutputScanKey(s, txs, scriptHash, rows[j].key);
    }
    DecodeAllOk(DecodeOutputRow, rows);
    assert OutputRowsFor(s, scriptHash).value[i] == r;
  }

  // ---------------------------------------------------------------- input rows

  /** Some input of `tx` cannot be told from the outpoint once both are truncated. */
  ghost predicate SpendsLike(tx: Tx, txid: Hash, vout: nat) {
    exists i :: 0 <= i < |tx.inputs| && InputLike(tx.inputs[i], txid, vout)
  }

  predicate InputLike(spent: OutPoint, txid: Hash, vout: nat) {
    spent.txid != NULL_HASH && PrefixOfHash(spent.txid) == PrefixOfHash(txid) && Truncated(spent.vout) == Truncated(vout)
  }

  ghost predicate IsSpender(txs: set<Tx>, txid: Hash, vout: nat, p: HashPrefix) {
    exists tx :: tx in txs && SpendsLike(tx, txid, vout) && PrefixOfHash(tx.id) == p
  }

  lemma InputScanKey(s: Contents, txs: set<Tx>, txid: Hash, vout: nat, k: Bytes)
    requires Serves(s, txs) && k in s && InputFilter(txid, vout) <= k
    ensures DecodeSpender(Row(k, s[k])).Ok? && IsSpender(txs, txid, vout, DecodeSpender(Row(k, s[k])).value)
    ensures k == InputKey(TxInRow(PrefixOfHash(txid), Truncated(vout), DecodeSpender(Row(k, s[k])).value))
  {
    FilterKeepsTag(InputFilter(txid, vout), k);
    assert ServesAt(s, txs, k);
    var tx :| tx in txs && HasKey(tx, k);
    KeyTags(tx, k);
    var i :| 0 <= i < |tx.inputs| && tx.inputs[i].txid != NULL_HASH && k == SpendKey(tx.inputs[i], tx.id);
    var r := TxInRow(PrefixOfHash(tx.inputs[i].txid), Truncated(tx.inputs[i].vout), PrefixOfHash(tx.id));
    InputFilterMatches(txid, vout, r);
    InputRoundTrip(r);
    assert InputLike(tx.inputs[i], txid, vout);
  }

  /** The spender prefixes found for an outpoint, each once. */
  lemma SpendersFound(s: Contents, txs: set<Tx>, txid: Hash, vout: nat)
    requires Serves(s, txs)
    ensures SpenderPrefixes(s, txid, vout).Ok?
    ensures forall i :: 0 <= i < |SpenderPrefixes(s, txid, vout).value| ==> IsSpender(txs, txid, vout, SpenderPrefixes(s, txid, vout).value[i])
    ensures forall i, j :: 0 <= i < j < |SpenderPrefixes(s, txid, vout).value| ==>
              SpenderPrefixes(s, txid, vout).value[i] != SpenderPrefixes(s, txid, vout).value[j]
  {
    hide Serves;
    var rows := PrefixRows(s, InputFilter(txid, vout));
    ScanRows(s, InputFilter(txid, vout));
    forall i | 0 <= i < |rows|
      ensures DecodeSpender(rows[i]).Ok? && IsSpender(txs, txid, vout, DecodeSpender(rows[i]).value)
      ensures rows[i].key == InputKey(TxInRow(PrefixOfHash(txid), Truncated(vout), DecodeSpender(rows[i]).value))
    {
      InputScanKey(s, txs, txid, vout, rows[i].key);
    }
    DecodeAllOk(DecodeSpender, rows);
  }

  lemma SpenderFound(s: Contents, txs: set<Tx>, txid: Hash, vout: nat, tx: Tx)
    requires Serves(s, txs) && tx in txs && SpendsLike(tx, txid, vout)
    ensures SpenderPrefixes(s, txid, vout).Ok? && PrefixOfHash(tx.id) in SpenderPrefixes(s, txid, vout).value
  {
    var n :| 0 <= n < |tx.inputs| && InputLike(tx.inputs[n], txid, vout);
    var k := SpendKey(tx.inputs[n], tx.id);
    var r := TxInRow(PrefixOfHash(txid), Truncated(vout), PrefixOfHash(tx.id));
    assert k == InputKey(r) && k[0] == TAG_INPUT && HasKey(tx, k);
    assert ServesAt(s, txs, k);
    InputFilterMatches(txid, vout, r);
    InputRoundTrip(r);
    hide Serves;
    var i := ScanFinds(s, InputFilter(txid, vout), k);
    ScanRows(s, InputFilter(txid, vout));
    var rows := PrefixRows(s, InputFilter(txid, vout));
    forall j | 0 <= j < |rows|
      ensures DecodeSpender(rows[j]).Ok?
    {
      InputScanKey(s, txs, txid, vout, rows[j].key);
    }
    DecodeAllOk(DecodeSpender, rows);
    assert SpenderPrefixes(s, txid, vout).value[i] == PrefixOfHash(tx.id);
  }
}
