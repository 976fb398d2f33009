/** Which rows a transaction and a block contribute. */
module Indexing {
  import opened ByteKeys
  import opened Chain
  import opened Rows
  import opened Store

  datatype OutPoint = OutPoint(txid: Hash, vout: nat)

  /** A transaction as the index sees it: its id, what it spends and the script hash of each output. */
  datatype Tx = Tx(id: Hash, inputs: seq<OutPoint>, outputs: seq<Hash>)

  datatype Block = Block(header: Header, txs: seq<Tx>)

  function SpendKey(spent: OutPoint, txid: Hash): Bytes {
    InputKey(TxInRow(PrefixOfHash(spent.txid), Truncated(spent.vout), PrefixOfHash(txid)))
  }

  function PayKey(scriptHash: Hash, txid: Hash, vout: nat): Bytes {
    OutputKey(TxOutRow(PrefixOfHash(scriptHash), PrefixOfHash(txid), Truncated(vout)))
  }

  /** Inputs spending the null transaction (coinbase) give no row. */
  function InputRows(txid: Hash, inputs: seq<OutPoint>): seq<Row> {
    if inputs == [] then []
    else
      var n := |inputs| - 1;
      InputRows(txid, inputs[..n]) + (if inputs[n].txid == NULL_HASH then [] else [Row(SpendKey(inputs[n], txid), [])])
  }

  function OutputRows(txid: Hash, outputs: seq<Hash>): (rows: seq<Row>)
    ensures |rows| == |outputs|
  {
    seq(|outputs|, v requires 0 <= v < |outputs| => Row(PayKey(outputs[v], txid, v), []))
  }

  function IndexTransaction(tx: Tx, blockhash: Hash): seq<Row> {
    InputRows(tx.id, tx.inputs) + OutputRows(tx.id, tx.outputs) + [EncodeTx(TxRow(tx.id, blockhash))]
  }

  function IndexTransactions(txs: seq<Tx>, blockhash: Hash): seq<Row> {
    if txs == [] then [] else IndexTransaction(txs[0], blockhash) + IndexTransactions(txs[1..], blockhash)
  }

  function IndexBlock(hasher: Header -> Hash, b: Block): seq<Row> {
    IndexTransactions(b.txs, hasher(b.header)) + [BlockRow(hasher(b.header), b.header)]
  }

  // ---------------------------------------------------------------- membership

  ghost predicate Spends(tx: Tx, k: Bytes) {
    exists i :: 0 <= i < |tx.inputs| && tx.inputs[i].txid != NULL_HASH && k == SpendKey(tx.inputs[i], tx.id)
  }

  ghost predicate Pays(tx: Tx, k: Bytes) {
    exists v :: 0 <= v < |tx.outputs| && k == PayKey(tx.outputs[v], tx.id, v)
  }

  /** `k` is a key of one of the rows of `tx`. */
  ghost predicate HasKey(tx: Tx, k: Bytes) {
    Spends(tx, k) || Pays(tx, k) || k == TxKey(tx.id)
  }

  /** The positions of the inputs that give the row `r`. */
  ghost function SpendsAt(txid: Hash, inputs: seq<OutPoint>, r: Row): set<nat> {
    set i: nat | i < |inputs| && inputs[i].txid != NULL_HASH && r == Row(SpendKey(inputs[i], txid), [])
  }

  /** The positions of the outputs that give the row `r`. */
  ghost function PaysAt(txid: Hash, outputs: seq<Hash>, r: Row): set<nat> {
    set v: nat | v < |outputs| && r == Row(PayKey(outputs[v], txid, v), [])
  }

  lemma SpendsAtPush(txid: Hash, inputs: seq<OutPoint>, n: nat, r: Row)
    requires |inputs| == n + 1
    ensures SpendsAt(txid, inputs, r) == SpendsAt(txid, inputs[..n], r) +
            (if inputs[n].txid != NULL_HASH && r == Row(SpendKey(inputs[n], txid), []) then {n} else {})
    ensures n !in SpendsAt(txid, inputs[..n], r)
  {
    hide SpendKey;
    assert forall i :: 0 <= i < n ==> inputs[..n][i] == inputs[i];
  }

  lemma {:induction false} InputRowsCount(txid: Hash, inputs: seq<OutPoint>, r: Row)
    ensures multiset(InputRows(txid, inputs))[r] == |SpendsAt(txid, inputs, r)|
  {
    hide SpendKey;
    if inputs == [] {
      assert SpendsAt(txid, inputs, r) == {};
    } else {
      hide SpendsAt;
      var n := |inputs| - 1;
      InputRowsCount(txid, inputs[..n], r);
      SpendsAtPush(txid, inputs, n, r);
    }
  }

  lemma PaysAtPush(txid: Hash, outputs: seq<Hash>, n: nat, r: Row)
    requires |outputs| == n + 1
    ensures PaysAt(txid, outputs, r) == PaysAt(txid, outputs[..n], r) + (if r == Row(PayKey(outputs[n], txid, n), []) then {n} else {})
    ensures n !in PaysAt(txid, outputs[..n], r)
    ensures OutputRows(txid, outputs) == OutputRows(txid, outputs[..n]) + [Row(PayKey(outputs[n], txid, n), [])]
  {
    hide PayKey;
    assert forall v :: 0 <= v < n ==> outputs[..n][v] == outputs[v];
  }

  lemma {:induction false} OutputRowsCount(txid: Hash, outputs: seq<Hash>, r: Row)
    ensures multiset(OutputRows(txid, outputs))[r] == |PaysAt(txid, outputs, r)|
  {
    hide PayKey;
    if outputs == [] {
      assert PaysAt(txid, outputs, r) == {};
    } else {
      hide PaysAt;
      hide OutputRows;
      var n := |outputs| - 1;
      OutputRowsCount(txid, outputs[..n], r);
      PaysAtPush(txid, outputs, n, r);
    }
  }

  /** A row occurs once for each input that spends, each output, and the transaction itself giving it. */
  lemma TransactionRowCount(tx: Tx, blockhash: Hash, r: Row)
    ensures multiset(IndexTransaction(tx, blockhash))[r] ==
            |SpendsAt(tx.id, tx.inputs, r)| + |PaysAt(tx.id, tx.outputs, r)| + (if r == Row(TxKey(tx.id), blockhash) then 1 else 0)
  {
    InputRowsCount(tx.id, tx.inputs, r);
    OutputRowsCount(tx.id, tx.outputs, r);
  }

  /** The rows of a transaction, by key: spends and payments carry no value, the transaction row names the block. */
  lemma TransactionRows(tx: Tx, blockhash: Hash, r: Row)
    ensures r in IndexTransaction(tx, blockhash) <==>
            || (r.value == [] && (Spends(tx, r.key) || Pays(tx, r.key)))
            || r == Row(TxKey(tx.id), blockhash)
  {
    hide SpendKey;
    hide PayKey;
    TransactionRowCount(tx, blockhash, r);
    assert r in IndexTransaction(tx, blockhash) <==> multiset(IndexTransaction(tx, blockhash))[r] > 0;
    var spends, pays := SpendsAt(tx.id, tx.inputs, r), PaysAt(tx.id, tx.outputs, r);
    if i :| i in spends {
      assert Spends(tx, r.key);
    }
    if v :| v in pays {
      assert Pays(tx, r.key);
    }
    if r.value == [] && Spends(tx, r.key) {
      var i: nat :| i < |tx.inputs| && tx.inputs[i].txid != NULL_HASH && r.key == SpendKey(tx.inputs[i], tx.id);
      assert i in spends;
    }
    if r.value == [] && Pays(tx, r.key) {
      var v: nat :| v < |tx.outputs| && r.key == PayKey(tx.outputs[v], tx.id, v);
      assert v in pays;
    }
  }

  lemma {:induction false} TransactionsRows(txs: seq<Tx>, blockhash: Hash, r: Row)
    ensures r in IndexTransactions(txs, blockhash) <==>
            exists j :: 0 <= j < |txs| && r in IndexTransaction(txs[j], blockhash)
  {
    hide IndexTransaction;
    if txs != [] {
      TransactionsRows(txs[1..], blockhash, r);
      if r in IndexTransactions(txs[1..], blockhash) {
        var j :| 0 <= j < |txs[1..]| && r in IndexTransaction(txs[1..][j], blockhash);
        assert txs[j + 1] == txs[1..][j];
      }
      forall j | 0 <= j < |txs| && r in IndexTransaction(txs[j], blockhash)
        ensures r in IndexTransactions(txs, blockhash)
      {
        if j > 0 {
          assert txs[j] == txs[1..][j - 1];
        }
      }
    }
  }

  ghost predicate HasTxid(b: Block, txid: Hash) {
    exists j :: 0 <= j < |b.txs| && b.txs[j].id == txid
  }

  /** `k` is a key of one of the rows of `b`, whose hash is `h`. */
  ghost predicate BlockHasKey(b: Block, h: Hash, k: Bytes) {
    k == BlockKey(h) || exists j :: 0 <= j < |b.txs| && HasKey(b.txs[j], k)
  }

  lemma KeyTags(tx: Tx, k: Bytes)
    ensures Spends(tx, k) ==> |k| == 19 && k[0] == TAG_INPUT
    ensures Pays(tx, k) ==> |k| == 19 && k[0] == TAG_OUTPUT
    ensures HasKey(tx, k) ==> |k| > 1 && k[0] != TAG_BLOCK
  {
  }

  /** The keys of a block's rows, and the value each kind of row carries. */
  lemma BlockRows(hasher: Header -> Hash, b: Block, r: Row)
    requires r in IndexBlock(hasher, b)
    ensures BlockHasKey(b, hasher(b.header), r.key)
    ensures forall x: Hash :: r.key == TxKey(x) ==> HasTxid(b, x) && r.value == hasher(b.header)
    ensures forall h: Hash :: r.key == BlockKey(h) ==> h == hasher(b.header) && r.value == EncodeHeader(b.header)
    ensures r.key != LAST_KEY
  {
    var bh := hasher(b.header);
    if r == BlockRow(bh, b.header) {
      assert r.key[0] == TAG_BLOCK;
      forall h: Hash | r.key == BlockKey(h)
        ensures h == bh
      {
        BlockKeyInjective(h, bh);
      }
    } else {
      TransactionsRows(b.txs, bh, r);
      var j :| 0 <= j < |b.txs| && r in IndexTransaction(b.txs[j], bh);
      TransactionRows(b.txs[j], bh, r);
      KeyTags(b.txs[j], r.key);
      assert HasKey(b.txs[j], r.key);
      forall x: Hash | r.key == TxKey(x)
        ensures HasTxid(b, x)
      {
        TxKeyInjective(x, b.txs[j].id);
      }
    }
  }

  lemma BlockKeysWritten(hasher: Header -> Hash, b: Block, k: Bytes)
    ensures BlockHasKey(b, hasher(b.header), k) <==> Puts(IndexBlock(hasher, b), k)
  {
    var bh := hasher(b.header);
    var rows := IndexBlock(hasher, b);
    if k == BlockKey(bh) {
      assert rows[|rows| - 1].key == k;
    } else if BlockHasKey(b, bh, k) {
      var j :| 0 <= j < |b.txs| && HasKey(b.txs[j], k);
      var r := Row(k, if k == TxKey(b.txs[j].id) then bh else []);
      TransactionRows(b.txs[j], bh, r);
      TransactionsRows(b.txs, bh, r);
      assert r in rows;
    }
    if Puts(rows, k) {
      var i :| 0 <= i < |rows| && rows[i].key == k;
      BlockRows(hasher, b, rows[i]);
    }
  }
}
