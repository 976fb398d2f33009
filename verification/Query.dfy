/** Funding outputs of a script and the spender of an output, joined on 8-byte prefixes. */
module Query {
  import opened ByteKeys
  import opened Rows
  import opened Store
  import opened HeaderChain
  import opened Indexing
  import opened TxStore

  datatype Txo = Txo(txid: Hash, vout: nat, height: nat)

  datatype SpendingInput = SpendingInput(txid: Hash, outpoint: OutPoint, height: nat)

  /** Height of a block in the header list; an unknown or abandoned block counts as 0. */
  function HeightOf(v: Headers, blockHash: Hash): nat {
    match v.Lookup(blockHash)
    case Some(e) => e.height
    case None => 0
  }

  /** The height a query attributes to a stored transaction. */
  function TxHeight(s: Contents, v: Headers, txid: Hash): nat {
    HeightOf(v, RecordedBlock(s, txid))
  }

  // ---------------------------------------------------------------- funding

  function TxosOf(v: Headers, bound: nat, vout: nat, rows: seq<TxRow>): seq<Txo> {
    if rows == [] then []
    else
      var n := |rows| - 1;
      var h := HeightOf(v, rows[n].blockHash);
      TxosOf(v, bound, vout, rows[..n]) + (if h > bound then [] else [Txo(rows[n].txid, vout, h)])
  }

  function FundingFrom(s: Contents, v: Headers, bound: nat, outs: seq<TxOutRow>): Outcome<seq<Txo>> {
    if outs == [] then Ok([])
    else
      var n := |outs| - 1;
      var before, rows := FundingFrom(s, v, bound, outs[..n]), TxRowsFor(s, outs[n].txidPrefix);
      if before.Ok? && rows.Ok? then Ok(before.value + TxosOf(v, bound, outs[n].vout, rows.value)) else Panic
  }

  /** `find_funding_outputs` */
  function FundingOutputs(s: Contents, v: Headers, scriptHash: Hash, bound: nat): Outcome<seq<Txo>> {
    var outs := OutputRowsFor(s, scriptHash);
    if outs.Ok? then FundingFrom(s, v, bound, outs.value) else Panic
  }

  method FindFundingOutputs(s: Contents, v: Headers, scriptHash: Hash, bound: nat) returns (r: Outcome<seq<Txo>>)
    ensures r == FundingOutputs(s, v, scriptHash, bound)
  {
    hide OutputRowsFor;
    hide TxRowsFor;
    hide HeightOf;
    var outs := OutputRowsFor(s, scriptHash);
    if !outs.Ok? {
      return Panic;
    }
    var result := [];
    for i := 0 to |outs.value|
      invariant FundingFrom(s, v, bound, outs.value[..i]) == Ok(result)
    {
      assert outs.value[..i + 1][..i] == outs.value[..i];
      var rows := TxRowsFor(s, outs.value[i].txidPrefix);
      if !rows.Ok? {
        FundingFails(s, v, bound, outs.value, i + 1);
        return Panic;
      }
      ghost var before := result;
      for j := 0 to |rows.value|
        invariant result == before + TxosOf(v, bound, outs.value[i].vout, rows.value[..j])
      {
        assert rows.value[..j + 1][..j] == rows.value[..j];
        var height := HeightOf(v, rows.value[j].blockHash);
        if height > bound {
          continue;
        }
        result := result + [Txo(rows.value[j].txid, outs.value[i].vout, height)];
      }
      assert rows.value[..|rows.value|] == rows.value;
    }
    assert outs.value[..|outs.value|] == outs.value;
    r := Ok(result);
  }

  lemma {:induction false} FundingFails(s: Contents, v: Headers, bound: nat, outs: seq<TxOutRow>, i: nat)
    requires i <= |outs| && !FundingFrom(s, v, bound, outs[..i]).Ok?
    ensures FundingFrom(s, v, bound, outs) == Panic
  {
    if i < |outs| {
      var n := |outs| - 1;
      assert outs[..n][..i] == outs[..i];
      FundingFails(s, v, bound, outs[..n], i);
    } else {
      assert outs[..i] == outs;
    }
  }

  lemma {:induction false} TxosOfMember(v: Headers, bound: nat, vout: nat, rows: seq<TxRow>, o: Txo)
    ensures o in TxosOf(v, bound, vout, rows) <==>
            o.vout == vout && o.height <= bound && exists i :: 0 <= i < |rows| && rows[i].txid == o.txid && HeightOf(v, rows[i].blockHash) == o.height
  {
    if rows != [] {
      var n := |rows| - 1;
      TxosOfMember(v, bound, vout, rows[..n], o);
      assert forall i :: 0 <= i < n ==> rows[..n][i] == rows[i];
    }
  }

  lemma {:induction false} TxosOfDistinct(v: Headers, bound: nat, vout: nat, rows: seq<TxRow>)
    requires forall i, j :: 0 <= i < j < |rows| ==> rows[i].txid != rows[j].txid
    ensures Distinct(TxosOf(v, bound, vout, rows))
  {
    if rows != [] {
      var n := |rows| - 1;
      TxosOfDistinct(v, bound, vout, rows[..n]);
      var h := HeightOf(v, rows[n].blockHash);
      TxosOfMember(v, bound, vout, rows[..n], Txo(rows[n].txid, vout, h));
      assert forall i :: 0 <= i < n ==> rows[..n][i] == rows[i];
      DistinctPush(TxosOf(v, bound, vout, rows[..n]), Txo(rows[n].txid, vout, h));
    }
  }

  ghost predicate Distinct<T>(s: seq<T>) {
    forall i, j :: 0 <= i < j < |s| ==> s[i] != s[j]
  }

  lemma DistinctPush<T>(s: seq<T>, x: T)
    requires Distinct(s) && x !in s
    ensures Distinct(s + [x])
  {
  }

  lemma DistinctConcat<T>(s: seq<T>, t: seq<T>)
    requires Distinct(s) && Distinct(t) && forall x :: x in s ==> x !in t
    ensures Distinct(s + t)
  {
    forall i, j | 0 <= i < j < |s + t|
      ensures (s + t)[i] != (s + t)[j]
    {
      if i < |s| && |s| <= j {
        assert s[i] in s && t[j - |s|] in t;
      }
    }
  }

  /** `o` comes from the output row `r`. */
  ghost predicate FundedBy(s: Contents, v: Headers, txs: set<Tx>, bound: nat, r: TxOutRow, o: Txo) {
    && PrefixOfHash(o.txid) == r.txidPrefix && o.vout == r.vout
    && o.height == TxHeight(s, v, o.txid) <= bound
    && exists tx :: tx in txs && tx.id == o.txid
  }

  /** What one output row contributes. */
  lemma TxosFound(s: Contents, v: Headers, txs: set<Tx>, bound: nat, r: TxOutRow)
    requires Serves(s, txs)
    ensures TxRowsFor(s, r.txidPrefix).Ok?
    ensures Distinct(TxosOf(v, bound, r.vout, TxRowsFor(s, r.txidPrefix).value))
    ensures forall o :: o in TxosOf(v, bound, r.vout, TxRowsFor(s, r.txidPrefix).value) <==> FundedBy(s, v, txs, bound, r, o)
  {
    hide Serves;
    TxRowsFound(s, txs, r.txidPrefix);
    var rows := TxRowsFor(s, r.txidPrefix).value;
    TxosOfDistinct(v, bound, r.vout, rows);
    forall o
      ensures o in TxosOf(v, bound, r.vout, rows) <==> FundedBy(s, v, txs, bound, r, o)
    {
      TxosOfMember(v, bound, r.vout, rows, o);
      if FundedBy(s, v, txs, bound, r, o) {
        var tx :| tx in txs && tx.id == o.txid;
        TxRowFound(s, txs, tx);
        var i :| 0 <= i < |rows| && rows[i] == TxRow(tx.id, RecordedBlock(s, tx.id));
      }
    }
  }

  lemma {:induction false} FundingFromFound(s: Contents, v: Headers, txs: set<Tx>, bound: nat, outs: seq<TxOutRow>)
    requires Serves(s, txs)
    requires forall i, j :: 0 <= i < j < |outs| ==> outs[i].txidPrefix != outs[j].txidPrefix || outs[i].vout != outs[j].vout
    ensures FundingFrom(s, v, bound, outs).Ok?
    ensures Distinct(FundingFrom(s, v, bound, outs).value)
    ensures forall o :: o in FundingFrom(s, v, bound, outs).value <==> exists i :: 0 <= i < |outs| && FundedBy(s, v, txs, bound, outs[i], o)
  {
    hide Serves;
    hide TxosOf;
    if outs != [] {
      var n := |outs| - 1;
      FundingFromFound(s, v, txs, bound, outs[..n]);
      TxosFound(s, v, txs, bound, outs[n]);
      assert forall i :: 0 <= i < n ==> outs[..n][i] == outs[i];
      var before := FundingFrom(s, v, bound, outs[..n]).value;
      var added := TxosOf(v, bound, outs[n].vout, TxRowsFor(s, outs[n].txidPrefix).value);
      assert FundingFrom(s, v, bound, outs).value == before + added;
      DistinctConcat(before, added);
    }
  }

  /** An indexed transaction with this id, at this height, whose prefix some output row pairs with `vout`. */
  ghost predicate FundsLike(s: Contents, v: Headers, txs: set<Tx>, scriptHash: Hash, bound: nat, o: Txo) {
    && o.height == TxHeight(s, v, o.txid) <= bound
    && (exists tx :: tx in txs && tx.id == o.txid)
    && (exists tx, n :: tx in txs && PaysPrefix(tx, n, scriptHash) && PrefixOfHash(tx.id) == PrefixOfHash(o.txid) && Truncated(n) == o.vout)
  }

  /** With no hypothesis on prefixes: the query succeeds and lists, each once, exactly the joined pairs. */
  lemma FundingFound(s: Contents, v: Headers, txs: set<Tx>, scriptHash: Hash, bound: nat)
    requires Serves(s, txs)
    ensures FundingOutputs(s, v, scriptHash, bound).Ok?
    ensures Distinct(FundingOutputs(s, v, scriptHash, bound).value)
    ensures forall o :: o in FundingOutputs(s, v, scriptHash, bound).value <==> FundsLike(s, v, txs, scriptHash, bound, o)
  {
    hide Serves;
    OutputRowsFound(s, txs, scriptHash);
    var outs := OutputRowsFor(s, scriptHash).value;
    assert forall i :: 0 <= i < |outs| ==> outs[i].scriptPrefix == PrefixOfHash(scriptHash);
    FundingFromFound(s, v, txs, bound, outs);
    forall o
      ensures (exists i :: 0 <= i < |outs| && FundedBy(s, v, txs, bound, outs[i], o)) <==> FundsLike(s, v, txs, scriptHash, bound, o)
    {
      FundedIffLike(s, v, txs, scriptHash, bound, outs, o);
    }
  }

  lemma FundedIffLike(s: Contents, v: Headers, txs: set<Tx>, scriptHash: Hash, bound: nat, outs: seq<TxOutRow>, o: Txo)
    requires Serves(s, txs) && OutputRowsFor(s, scriptHash) == Ok(outs)
    requires forall i :: 0 <= i < |outs| ==> IsOutputRow(txs, scriptHash, outs[i])
    ensures (exists i :: 0 <= i < |outs| && FundedBy(s, v, txs, bound, outs[i], o)) <==> FundsLike(s, v, txs, scriptHash, bound, o)
  {
    hide Serves;
    if FundsLike(s, v, txs, scriptHash, bound, o) {
      var tx, n :| tx in txs && PaysPrefix(tx, n, scriptHash) && PrefixOfHash(tx.id) == PrefixOfHash(o.txid) && Truncated(n) == o.vout;
      OutputRowFound(s, txs, scriptHash, tx, n);
      var i :| 0 <= i < |outs| && outs[i] == TxOutRow(PrefixOfHash(scriptHash), PrefixOfHash(tx.id), Truncated(n));
      assert FundedBy(s, v, txs, bound, outs[i], o);
    }
  }

  /** No indexed output paying the script within the height bound is ever missed. */
  lemma FundingComplete(s: Contents, v: Headers, txs: set<Tx>, scriptHash: Hash, bound: nat, tx: Tx, vout: nat)
    requires Serves(s, txs) && tx in txs && vout < |tx.outputs| && tx.outputs[vout] == scriptHash
    requires TxHeight(s, v, tx.id) <= bound
    ensures FundingOutputs(s, v, scriptHash, bound).Ok?
    ensures Txo(tx.id, vout % 0x1_0000, TxHeight(s, v, tx.id)) in FundingOutputs(s, v, scriptHash, bound).value
  {
    hide Serves;
    FundingFound(s, v, txs, scriptHash, bound);
    assert PaysPrefix(tx, vout, scriptHash);
    assert FundsLike(s, v, txs, scriptHash, bound, Txo(tx.id, Truncated(vout), TxHeight(s, v, tx.id)));
  }

  /** Prefixes tell the stored transactions apart. */
  ghost predicate PrefixesDistinct(txs: set<Tx>) {
    forall t, u :: t in txs && u in txs && PrefixOfHash(t.id) == PrefixOfHash(u.id) ==> t == u
  }

  /** No other script paid in the store shares the prefix, and output indices fit 16 bits. */
  ghost predicate ScriptDistinct(txs: set<Tx>, scriptHash: Hash) {
    forall tx, n: nat :: tx in txs && PaysPrefix(tx, n, scriptHash) ==> tx.outputs[n] == scriptHash && n < 0x1_0000
  }

  /** `tx` pays the script at `o.vout`, and `o` names it with its height. */
  ghost predicate Funds(s: Contents, v: Headers, scriptHash: Hash, bound: nat, tx: Tx, o: Txo) {
    && o.vout < |tx.outputs| && tx.outputs[o.vout] == scriptHash
    && o.txid == tx.id && o.height == TxHeight(s, v, tx.id) <= bound
  }

  /** With collision-free prefixes the query lists exactly the outputs paying the script, each once. */
  lemma FundingExact(s: Contents, v: Headers, txs: set<Tx>, scriptHash: Hash, bound: nat, o: Txo)
    requires Serves(s, txs) && PrefixesDistinct(txs) && ScriptDistinct(txs, scriptHash)
    ensures FundingOutputs(s, v, scriptHash, bound).Ok?
    ensures Distinct(FundingOutputs(s, v, scriptHash, bound).value)
    ensures o in FundingOutputs(s, v, scriptHash, bound).value <==> exists tx :: tx in txs && Funds(s, v, scriptHash, bound, tx, o)
  {
    hide Serves;
    FundingFound(s, v, txs, scriptHash, bound);
    if FundsLike(s, v, txs, scriptHash, bound, o) {
      var t :| t in txs && t.id == o.txid;
      var u, n :| u in txs && PaysPrefix(u, n, scriptHash) && PrefixOfHash(u.id) == PrefixOfHash(o.txid) && Truncated(n) == o.vout;
      assert t == u && n == o.vout;
      assert Funds(s, v, scriptHash, bound, t, o);
    }
    if tx :| tx in txs && Funds(s, v, scriptHash, bound, tx, o) {
      assert PaysPrefix(tx, o.vout, scriptHash);
      assert FundsLike(s, v, txs, scriptHash, bound, o);
    }
  }

  /** First by output row, then by transaction row. */
  ghost predicate KeyBefore(scriptHash: Hash, a: Txo, b: Txo) {
    || Precedes(PayKey(scriptHash, a.txid, a.vout), PayKey(scriptHash, b.txid, b.vout))
    || (PayKey(scriptHash, a.txid, a.vout) == PayKey(scriptHash, b.txid, b.vout) && Precedes(TxKey(a.txid), TxKey(b.txid)))
  }

  ghost predicate KeyOrdered(scriptHash: Hash, os: seq<Txo>) {
    forall i, j :: 0 <= i < j < |os| ==> KeyBefore(scriptHash, os[i], os[j])
  }

  lemma KeyOrderedConcat(scriptHash: Hash, a: seq<Txo>, b: seq<Txo>)
    requires KeyOrdered(scriptHash, a) && KeyOrdered(scriptHash, b)
    requires forall x, y :: x in a && y in b ==> KeyBefore(scriptHash, x, y)
    ensures KeyOrdered(scriptHash, a + b)
  {
    forall i, j | 0 <= i < j < |a + b|
      ensures KeyBefore(scriptHash, (a + b)[i], (a + b)[j])
    {
      if i < |a| <= j {
        assert a[i] in a && b[j - |a|] in b;
      }
    }
  }

  /** The outputs of one row come in the order of their transaction rows. */
  lemma {:induction false} TxosOrdered(v: Headers, bound: nat, r: TxOutRow, scriptHash: Hash, rows: seq<TxRow>)
    requires r.scriptPrefix == PrefixOfHash(scriptHash)
    requires forall i :: 0 <= i < |rows| ==> PrefixOfHash(rows[i].txid) == r.txidPrefix
    requires forall i, j :: 0 <= i < j < |rows| ==> Precedes(TxKey(rows[i].txid), TxKey(rows[j].txid))
    ensures KeyOrdered(scriptHash, TxosOf(v, bound, r.vout, rows))
    ensures forall o :: o in TxosOf(v, bound, r.vout, rows) ==> PayKey(scriptHash, o.txid, o.vout) == OutputKey(r)
  {
    hide Precedes;
    hide OutputKey;
    hide TxKey;
    if rows != [] {
      var n := |rows| - 1;
      assert forall i :: 0 <= i < n ==> rows[..n][i] == rows[i];
      TxosOrdered(v, bound, r, scriptHash, rows[..n]);
      var before, h := TxosOf(v, bound, r.vout, rows[..n]), HeightOf(v, rows[n].blockHash);
      var last := Txo(rows[n].txid, r.vout, h);
      assert PayKey(scriptHash, last.txid, last.vout) == OutputKey(r);
      if h <= bound {
        forall x | x in before
          ensures KeyBefore(scriptHash, x, last)
        {
          TxosOfMember(v, bound, r.vout, rows[..n], x);
          var i :| 0 <= i < n && rows[i].txid == x.txid;
          assert Precedes(TxKey(rows[i].txid), TxKey(rows[n].txid));
        }
        KeyOrderedConcat(scriptHash, before, [last]);
      }
    }
  }

  lemma {:induction false} FundingFromOrdered(s: Contents, v: Headers, txs: set<Tx>, bound: nat, scriptHash: Hash, outs: seq<TxOutRow>)
    requires Serves(s, txs) && forall i :: 0 <= i < |outs| ==> outs[i].scriptPrefix == PrefixOfHash(scriptHash)
    requires forall i, j :: 0 <= i < j < |outs| ==> Precedes(OutputKey(outs[i]), OutputKey(outs[j]))
    ensures FundingFrom(s, v, bound, outs).Ok? && KeyOrdered(scriptHash, FundingFrom(s, v, bound, outs).value)
    ensures forall o :: o in FundingFrom(s, v, bound, outs).value ==>
              exists i :: 0 <= i < |outs| && PayKey(scriptHash, o.txid, o.vout) == OutputKey(outs[i])
  {
    hide Serves;
    hide Precedes;
    hide OutputKey;
    hide TxosOf;
    if outs != [] {
      var n := |outs| - 1;
      assert forall i :: 0 <= i < n ==> outs[..n][i] == outs[i];
      FundingFromOrdered(s, v, txs, bound, scriptHash, outs[..n]);
      TxRowsFound(s, txs, outs[n].txidPrefix);
      var before, rows := FundingFrom(s, v, bound, outs[..n]).value, TxRowsFor(s, outs[n].txidPrefix).value;
      TxosOrdered(v, bound, outs[n], scriptHash, rows);
      var added := TxosOf(v, bound, outs[n].vout, rows);
      forall x, y | x in before && y in added
        ensures KeyBefore(scriptHash, x, y)
      {
        var i :| 0 <= i < n && PayKey(scriptHash, x.txid, x.vout) == OutputKey(outs[..n][i]);
        assert Precedes(OutputKey(outs[i]), OutputKey(outs[n]));
      }
      KeyOrderedConcat(scriptHash, before, added);
      assert FundingFrom(s, v, bound, outs).value == before + added;
    }
  }

  /** The outputs come in the order of the database: by output row, and for one row by transaction row. */
  lemma FundingOrdered(s: Contents, v: Headers, txs: set<Tx>, scriptHash: Hash, bound: nat)
    requires Serves(s, txs)
    ensures FundingOutputs(s, v, scriptHash, bound).Ok?
    ensures KeyOrdered(scriptHash, FundingOutputs(s, v, scriptHash, bound).value)
  {
    hide Serves;
    hide Precedes;
    OutputRowsFound(s, txs, scriptHash);
    FundingFromOrdered(s, v, txs, bound, scriptHash, OutputRowsFor(s, scriptHash).value);
  }

  // ---------------------------------------------------------------- spending

  /** `get_txrows_by_prefixes` */
  function TxRowsForAll(s: Contents, ps: seq<HashPrefix>): Outcome<seq<TxRow>> {
    if ps == [] then Ok([])
    else
      var n := |ps| - 1;
      var before, rows := TxRowsForAll(s, ps[..n]), TxRowsFor(s, ps[n]);
      if before.Ok? && rows.Ok? then Ok(before.value + rows.value) else Panic
  }

  function SpendingsOf(v: Headers, bound: nat, op: OutPoint, rows: seq<TxRow>): seq<SpendingInput> {
    if rows == [] then []
    else
      var n := |rows| - 1;
      var h := HeightOf(v, rows[n].blockHash);
      SpendingsOf(v, bound, op, rows[..n]) + (if h > bound then [] else [SpendingInput(rows[n].txid, op, h)])
  }

  /** All candidates, before the assertion that there is at most one. */
  function AllSpendings(s: Contents, v: Headers, op: OutPoint, bound: nat): Outcome<seq<SpendingInput>> {
    var ps := SpenderPrefixes(s, op.txid, op.vout);
    if !ps.Ok? then Panic
    else
      var rows := TxRowsForAll(s, ps.value);
      if rows.Ok? then Ok(SpendingsOf(v, bound, op, rows.value)) else Panic
  }

  /** `find_spending_input` */
  function SpendingInputOf(s: Contents, v: Headers, op: OutPoint, bound: nat): Outcome<Option<SpendingInput>> {
    var all := AllSpendings(s, v, op, bound);
    if !all.Ok? || |all.value| > 1 then Panic
    else if |all.value| == 1 then Ok(Some(all.value[0]))
    else Ok(None)
  }

  method FindSpendingInput(s: Contents, v: Headers, op: OutPoint, bound: nat) returns (r: Outcome<Option<SpendingInput>>)
    ensures r == SpendingInputOf(s, v, op, bound)
  {
    var ps := SpenderPrefixes(s, op.txid, op.vout);
    if !ps.Ok? {
      return Panic;
    }
    var rows := TxRowsForAll(s, ps.value);
    if !rows.Ok? {
      return Panic;
    }
    var spendings := [];
    for i := 0 to |rows.value|
      invariant spendings == SpendingsOf(v, bound, op, rows.value[..i])
    {
      assert rows.value[..i + 1][..i] == rows.value[..i];
      var height := HeightOf(v, rows.value[i].blockHash);
      if height > bound {
        continue;
      }
      spendings := spendings + [SpendingInput(rows.value[i].txid, op, height)];
    }
    assert rows.value[..|rows.value|] == rows.value;
    if |spendings| > 1 {
      return Panic;
    }
    r := Ok(if |spendings| == 1 then Some(spendings[0]) else None);
  }

  lemma {:induction false} SpendingsOfMember(v: Headers, bound: nat, op: OutPoint, rows: seq<TxRow>, x: SpendingInput)
    ensures x in SpendingsOf(v, bound, op, rows) <==>
            x.outpoint == op && x.height <= bound && exists i :: 0 <= i < |rows| && rows[i].txid == x.txid && HeightOf(v, rows[i].blockHash) == x.height
  {
    if rows != [] {
      var n := |rows| - 1;
      SpendingsOfMember(v, bound, op, rows[..n], x);
      assert forall i :: 0 <= i < n ==> rows[..n][i] == rows[i];
    }
  }

  ghost predicate DistinctTxids(xs: seq<SpendingInput>) {
    forall i, j :: 0 <= i < j < |xs| ==> xs[i].txid != xs[j].txid
  }

  lemma {:induction false} SpendingsOfDistinct(v: Headers, bound: nat, op: OutPoint, rows: seq<TxRow>)
    requires forall i, j :: 0 <= i < j < |rows| ==> rows[i].txid != rows[j].txid
    ensures DistinctTxids(SpendingsOf(v, bound, op, rows))
  {
    if rows != [] {
      var n := |rows| - 1;
      var before := SpendingsOf(v, bound, op, rows[..n]);
      SpendingsOfDistinct(v, bound, op, rows[..n]);
      forall i | 0 <= i < |before|
        ensures before[i].txid != rows[n].txid
      {
        SpendingsOfMember(v, bound, op, rows[..n], before[i]);
        assert before[i] in before;
        var j :| 0 <= j < n && rows[..n][j].txid == before[i].txid;
        assert rows[j].txid != rows[n].txid;
      }
    }
  }

  lemma {:induction false} TxRowsForAllFound(s: Contents, txs: set<Tx>, ps: seq<HashPrefix>)
    requires Serves(s, txs) && forall i, j :: 0 <= i < j < |ps| ==> ps[i] != ps[j]
    ensures TxRowsForAll(s, ps).Ok?
    ensures forall r :: r in TxRowsForAll(s, ps).value <==> PrefixOfHash(r.txid) in ps && IsTxRow(s, txs, PrefixOfHash(r.txid), r)
    ensures forall i, j :: 0 <= i < j < |TxRowsForAll(s, ps).value| ==> TxRowsForAll(s, ps).value[i].txid != TxRowsForAll(s, ps).value[j].txid
  {
    hide Serves;
    if ps != [] {
      var n := |ps| - 1;
      assert forall i :: 0 <= i < n ==> ps[..n][i] == ps[i];
      TxRowsForAllFound(s, txs, ps[..n]);
      TxRowsFound(s, txs, ps[n]);
      forall r
        ensures r in TxRowsFor(s, ps[n]).value <==> IsTxRow(s, txs, ps[n], r)
      {
        TxRowMember(s, txs, ps[n], r);
      }
      var before, added := TxRowsForAll(s, ps[..n]).value, TxRowsFor(s, ps[n]).value;
      assert TxRowsForAll(s, ps).value == before + added;
      assert ps == ps[..n] + [ps[n]] && ps[n] !in ps[..n];
      TxidsApart(before, added, ps[n]);
    }
  }

  lemma TxidsApart(before: seq<TxRow>, added: seq<TxRow>, p: HashPrefix)
    requires forall i, j :: 0 <= i < j < |before| ==> before[i].txid != before[j].txid
    requires forall i, j :: 0 <= i < j < |added| ==> added[i].txid != added[j].txid
    requires forall r :: r in before ==> PrefixOfHash(r.txid) != p
    requires forall r :: r in added ==> PrefixOfHash(r.txid) == p
    ensures forall i, j :: 0 <= i < j < |before + added| ==> (before + added)[i].txid != (before + added)[j].txid
  {
    forall i, j | 0 <= i < j < |before + added|
      ensures (before + added)[i].txid != (before + added)[j].txid
    {
      if i < |before| <= j {
        assert before[i] in before && added[j - |before|] in added;
      }
    }
  }

  lemma TxRowMember(s: Contents, txs: set<Tx>, p: HashPrefix, r: TxRow)
    requires Serves(s, txs)
    ensures TxRowsFor(s, p).Ok? && (r in TxRowsFor(s, p).value <==> IsTxRow(s, txs, p, r))
  {
    hide Serves;
    TxRowsFound(s, txs, p);
    if IsTxRow(s, txs, p, r) {
      var tx :| tx in txs && tx.id == r.txid;
      TxRowFound(s, txs, tx);
    }
  }

  /** A stored transaction within the bound whose prefix is that of some transaction seeming to spend `op`. */
  ghost predicate Candidate(s: Contents, v: Headers, txs: set<Tx>, op: OutPoint, bound: nat, x: Hash) {
    && TxHeight(s, v, x) <= bound
    && (exists tx :: tx in txs && tx.id == x)
    && IsSpender(txs, op.txid, op.vout, PrefixOfHash(x))
  }

  lemma SpendingsFound(s: Contents, v: Headers, txs: set<Tx>, op: OutPoint, bound: nat)
    requires Serves(s, txs)
    ensures AllSpendings(s, v, op, bound).Ok?
    ensures DistinctTxids(AllSpendings(s, v, op, bound).value)
    ensures forall x :: x in AllSpendings(s, v, op, bound).value <==>
              Candidate(s, v, txs, op, bound, x.txid) && x == SpendingInput(x.txid, op, TxHeight(s, v, x.txid))
  {
    hide Serves;
    SpendersFound(s, txs, op.txid, op.vout);
    var ps := SpenderPrefixes(s, op.txid, op.vout).value;
    TxRowsForAllFound(s, txs, ps);
    var rows := TxRowsForAll(s, ps).value;
    SpendingsOfDistinct(v, bound, op, rows);
    hide SpendingsOf;
    forall x
      ensures x in SpendingsOf(v, bound, op, rows) <==>
              Candidate(s, v, txs, op, bound, x.txid) && x == SpendingInput(x.txid, op, TxHeight(s, v, x.txid))
    {
      SpendingFound(s, v, txs, op, bound, ps, rows, x);
    }
  }

  lemma SpendingFound(s: Contents, v: Headers, txs: set<Tx>, op: OutPoint, bound: nat, ps: seq<HashPrefix>, rows: seq<TxRow>, x: SpendingInput)
    requires Serves(s, txs) && SpenderPrefixes(s, op.txid, op.vout) == Ok(ps)
    requires forall r :: r in rows <==> PrefixOfHash(r.txid) in ps && IsTxRow(s, txs, PrefixOfHash(r.txid), r)
    ensures x in SpendingsOf(v, bound, op, rows) <==>
            Candidate(s, v, txs, op, bound, x.txid) && x == SpendingInput(x.txid, op, TxHeight(s, v, x.txid))
  {
    hide Serves;
    SpendingsOfMember(v, bound, op, rows, x);
    SpenderPrefixMember(s, txs, op, PrefixOfHash(x.txid));
    var r := TxRow(x.txid, RecordedBlock(s, x.txid));
    if r in rows {
      var i :| 0 <= i < |rows| && rows[i] == r;
      assert rows[i].txid == x.txid;
    }
    forall i | 0 <= i < |rows| && rows[i].txid == x.txid
      ensures rows[i] == r
    {
      assert rows[i] in rows;
    }
  }

  lemma SpenderPrefixMember(s: Contents, txs: set<Tx>, op: OutPoint, p: HashPrefix)
    requires Serves(s, txs)
    ensures SpenderPrefixes(s, op.txid, op.vout).Ok?
    ensures p in SpenderPrefixes(s, op.txid, op.vout).value <==> IsSpender(txs, op.txid, op.vout, p)
  {
    hide Serves;
    SpendersFound(s, txs, op.txid, op.vout);
    if IsSpender(txs, op.txid, op.vout, p) {
      var tx :| tx in txs && SpendsLike(tx, op.txid, op.vout) && PrefixOfHash(tx.id) == p;
      SpenderFound(s, txs, op.txid, op.vout, tx);
    }
  }

  /** The assertion fails exactly when two transactions are candidates; otherwise the only one, if any, is returned. */
  lemma SpendingExact(s: Contents, v: Headers, txs: set<Tx>, op: OutPoint, bound: nat)
    requires Serves(s, txs)
    ensures SpendingInputOf(s, v, op, bound) == Panic <==>
            exists x, y :: x != y && Candidate(s, v, txs, op, bound, x) && Candidate(s, v, txs, op, bound, y)
    ensures SpendingInputOf(s, v, op, bound) == Ok(None) <==> forall x: Hash :: !Candidate(s, v, txs, op, bound, x)
    ensures forall x: SpendingInput :: SpendingInputOf(s, v, op, bound) == Ok(Some(x)) ==>
              Candidate(s, v, txs, op, bound, x.txid) && x == SpendingInput(x.txid, op, TxHeight(s, v, x.txid))
  {
    hide Serves;
    hide AllSpendings;
    hide Candidate;
    SpendingsFound(s, v, txs, op, bound);
    var all := AllSpendings(s, v, op, bound).value;
    if |all| > 1 {
      assert all[0] in all && all[1] in all && all[0].txid != all[1].txid;
    }
    forall x: Hash | Candidate(s, v, txs, op, bound, x)
      ensures SpendingInput(x, op, TxHeight(s, v, x)) in all
    {
    }
    if |all| == 1 {
      assert all[0] in all;
      assert forall x: Hash :: Candidate(s, v, txs, op, bound, x) ==> SpendingInput(x, op, TxHeight(s, v, x)) == all[0];
    }
  }

  /** Truncation confuses no stored input with `op`. */
  ghost predicate TruncationSafe(txs: set<Tx>, op: OutPoint) {
    forall tx, i :: tx in txs && 0 <= i < |tx.inputs| && InputLike(tx.inputs[i], op.txid, op.vout) ==> tx.inputs[i] == op
  }

  /** A stored transaction within the bound that spends `op`. */
  ghost predicate Spender(s: Contents, v: Headers, txs: set<Tx>, op: OutPoint, bound: nat, tx: Tx) {
    tx in txs && op in tx.inputs && TxHeight(s, v, tx.id) <= bound
  }

  lemma CandidateSpends(s: Contents, v: Headers, txs: set<Tx>, op: OutPoint, bound: nat, x: Hash)
    requires PrefixesDistinct(txs) && TruncationSafe(txs, op) && op.txid != NULL_HASH
    ensures Candidate(s, v, txs, op, bound, x) <==> exists tx :: Spender(s, v, txs, op, bound, tx) && tx.id == x
  {
    if Candidate(s, v, txs, op, bound, x) {
      var t :| t in txs && t.id == x;
      var u :| u in txs && SpendsLike(u, op.txid, op.vout) && PrefixOfHash(u.id) == PrefixOfHash(x);
      assert t == u;
      var i :| 0 <= i < |u.inputs| && InputLike(u.inputs[i], op.txid, op.vout);
      assert u.inputs[i] == op;
      assert Spender(s, v, txs, op, bound, t);
    }
    if tx :| Spender(s, v, txs, op, bound, tx) && tx.id == x {
      var i :| 0 <= i < |tx.inputs| && tx.inputs[i] == op;
      assert InputLike(tx.inputs[i], op.txid, op.vout);
      assert SpendsLike(tx, op.txid, op.vout);
    }
  }

  /**
   * With collision-free prefixes and outpoints: the at-most-one assertion fails exactly when two stored
   * transactions within the bound spend the output, and otherwise the answer is its spender if it has one.
   */
  lemma SpenderUnique(s: Contents, v: Headers, txs: set<Tx>, op: OutPoint, bound: nat)
    requires Serves(s, txs) && PrefixesDistinct(txs) && TruncationSafe(txs, op) && op.txid != NULL_HASH
    ensures SpendingInputOf(s, v, op, bound) != Panic <==>
            forall t, u :: Spender(s, v, txs, op, bound, t) && Spender(s, v, txs, op, bound, u) ==> t == u
    ensures SpendingInputOf(s, v, op, bound) == Ok(None) <==> forall tx :: !Spender(s, v, txs, op, bound, tx)
    ensures forall tx :: SpendingInputOf(s, v, op, bound) != Panic && Spender(s, v, txs, op, bound, tx) ==>
              SpendingInputOf(s, v, op, bound) == Ok(Some(SpendingInput(tx.id, op, TxHeight(s, v, tx.id))))
  {
    SpendingExact(s, v, txs, op, bound);
    SpenderIds(s, v, txs, op, bound);
    forall x: Hash
      ensures Candidate(s, v, txs, op, bound, x) <==> exists tx :: Spender(s, v, txs, op, bound, tx) && tx.id == x
    {
      CandidateSpends(s, v, txs, op, bound, x);
    }
    hide Serves;
    hide SpendingInputOf;
    hide Candidate;
    hide Spender;
    forall tx | Spender(s, v, txs, op, bound, tx)
      ensures Candidate(s, v, txs, op, bound, tx.id)
    {
    }
    if SpendingInputOf(s, v, op, bound) == Panic {
      var x, y :| x != y && Candidate(s, v, txs, op, bound, x) && Candidate(s, v, txs, op, bound, y);
      var t :| Spender(s, v, txs, op, bound, t) && t.id == x;
      var u :| Spender(s, v, txs, op, bound, u) && u.id == y;
      assert t != u;
    }
  }

  lemma SpenderIds(s: Contents, v: Headers, txs: set<Tx>, op: OutPoint, bound: nat)
    requires PrefixesDistinct(txs)
    ensures forall t, u :: Spender(s, v, txs, op, bound, t) && Spender(s, v, txs, op, bound, u) && t.id == u.id ==> t == u
  {
  }
}
