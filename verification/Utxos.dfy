/** The status of a script over the database and the mempool, and its unspent outputs. */
module Utxos {
  import opened ByteKeys
  import opened Store
  import opened HeaderChain
  import opened Indexing
  import opened TxStore
  import opened Query

  datatype Status = Status(
    confirmedFunding: seq<Txo>, confirmedSpending: seq<SpendingInput>,
    mempoolFunding: seq<Txo>, mempoolSpending: seq<SpendingInput>
  ) {
    function Funding(): seq<Txo> {
      confirmedFunding + mempoolFunding
    }

    function Spending(): seq<SpendingInput> {
      confirmedSpending + mempoolSpending
    }
  }

  /** The height bound of the RPC calls and of every mempool lookup. */
  const NO_BOUND: nat := 9999999999

  /** How a query limits the number of outputs; a limit of 0 means none. */
  datatype Limit = Limit(inUse: bool, max: nat) {
    predicate Exceeded(n: nat) {
      inUse && max > 0 && n > max
    }
  }

  function PointOf(o: Txo): OutPoint {
    OutPoint(o.txid, o.vout)
  }

  function SpendingsFor(s: Contents, v: Headers, bound: nat, txos: seq<Txo>): Outcome<seq<SpendingInput>> {
    if txos == [] then Ok([])
    else
      var n := |txos| - 1;
      var before, last := SpendingsFor(s, v, bound, txos[..n]), SpendingInputOf(s, v, PointOf(txos[n]), bound);
      if before.Ok? && last.Ok? then Ok(before.value + (if last.value.Some? then [last.value.value] else [])) else Panic
  }

  /** `confirmed_status` and `mempool_status`: the funding outputs of one store and the spenders of `extra` too. */
  function SideStatus(s: Contents, v: Headers, scriptHash: Hash, bound: nat, limit: Limit, extra: seq<Txo>): Outcome<(seq<Txo>, seq<SpendingInput>)> {
    match FundingOutputs(s, v, scriptHash, bound)
    case Ok(funding) =>
      if limit.Exceeded(|funding|) then Err
      else
        (match SpendingsFor(s, v, bound, funding + extra)
         case Ok(spending) => Ok((funding, spending))
         case _ => Panic)
    case _ => Panic
  }

  /** `status` */
  function StatusOf(db: Contents, pool: Contents, v: Headers, scriptHash: Hash, bound: nat, limit: Limit): Outcome<Status> {
    match SideStatus(db, v, scriptHash, bound, limit, [])
    case Ok((funding, spending)) =>
      (match SideStatus(pool, v, scriptHash, NO_BOUND, limit, funding)
       case Ok((poolFunding, poolSpending)) => Ok(Status(funding, spending, poolFunding, poolSpending))
       case Err => Err
       case Panic => Panic)
    case Err => Err
    case Panic => Panic
  }

  method FindSpendings(s: Contents, v: Headers, bound: nat, txos: seq<Txo>) returns (r: Outcome<seq<SpendingInput>>)
    ensures r == SpendingsFor(s, v, bound, txos)
  {
    var spending := [];
    for i := 0 to |txos|
      invariant SpendingsFor(s, v, bound, txos[..i]) == Ok(spending)
    {
      assert txos[..i + 1][..i] == txos[..i] && spending + [] == spending;
      var spent := FindSpendingInput(s, v, PointOf(txos[i]), bound);
      if !spent.Ok? {
        SpendingsFail(s, v, bound, txos, i + 1);
        return Panic;
      }
      if spent.value.Some? {
        spending := spending + [spent.value.value];
      }
    }
    assert txos[..|txos|] == txos;
    r := Ok(spending);
  }

  lemma {:induction false} SpendingsFail(s: Contents, v: Headers, bound: nat, txos: seq<Txo>, i: nat)
    requires i <= |txos| && !SpendingsFor(s, v, bound, txos[..i]).Ok?
    ensures SpendingsFor(s, v, bound, txos) == Panic
  {
    if i < |txos| {
      var n := |txos| - 1;
      assert txos[..n][..i] == txos[..i];
      SpendingsFail(s, v, bound, txos[..n], i);
    } else {
      assert txos[..i] == txos;
    }
  }

  method GetSideStatus(s: Contents, v: Headers, scriptHash: Hash, bound: nat, limit: Limit, extra: seq<Txo>)
    returns (r: Outcome<(seq<Txo>, seq<SpendingInput>)>)
    ensures r == SideStatus(s, v, scriptHash, bound, limit, extra)
  {
    var funding := FindFundingOutputs(s, v, scriptHash, bound);
    if !funding.Ok? {
      return Panic;
    }
    if limit.Exceeded(|funding.value|) {
      return Err;
    }
    var spending := FindSpendings(s, v, bound, funding.value + extra);
    if !spending.Ok? {
      return Panic;
    }
    r := Ok((funding.value, spending.value));
  }

  method GetStatus(db: Contents, pool: Contents, v: Headers, scriptHash: Hash, bound: nat, limit: Limit) returns (r: Outcome<Status>)
    ensures r == StatusOf(db, pool, v, scriptHash, bound, limit)
  {
    var confirmed := GetSideStatus(db, v, scriptHash, bound, limit, []);
    match confirmed
    case Err => return Err;
    case Panic => return Panic;
    case Ok((funding, spending)) =>
      var mempool := GetSideStatus(pool, v, scriptHash, NO_BOUND, limit, funding);
      match mempool
      case Err => return Err;
      case Panic => return Panic;
      case Ok((poolFunding, poolSpending)) => return Ok(Status(funding, spending, poolFunding, poolSpending));
  }

  // ---------------------------------------------------------------- the unspent outputs

  function Points(txos: seq<Txo>): set<OutPoint> {
    set i | 0 <= i < |txos| :: PointOf(txos[i])
  }

  function SpentPoints(xs: seq<SpendingInput>): set<OutPoint> {
    set i | 0 <= i < |xs| :: xs[i].outpoint
  }

  /** `blockchain_scripthash_get_utxos`; the reply lists the keys of a hash map, in no particular order. */
  method GetUtxos(db: Contents, pool: Contents, v: Headers, scriptHash: Hash) returns (r: Outcome<seq<OutPoint>>)
    ensures r.Ok? <==> StatusOf(db, pool, v, scriptHash, 9999999999, Limit(false, 0)).Ok?
    ensures r != Err
    ensures r.Ok? ==>
              var status := StatusOf(db, pool, v, scriptHash, 9999999999, Limit(false, 0)).value;
              && Distinct(r.value)
              && forall op :: op in r.value <==> op in Points(status.Funding()) - SpentPoints(status.Spending())
  {
    hide StatusOf;
    var status := GetStatus(db, pool, v, scriptHash, NO_BOUND, Limit(false, 0));
    if !status.Ok? {
      return Panic;
    }
    var dict := Remaining(status.value.Funding(), status.value.Spending());
    var utxos := [];
    var todo := dict;
    while todo != {}
      invariant todo <= dict && Distinct(utxos)
      invariant forall op :: op in utxos <==> op in dict - todo
      decreases todo
    {
      var op :| op in todo;
      DistinctPush(utxos, op);
      utxos := utxos + [op];
      todo := todo - {op};
    }
    r := Ok(utxos);
  }

  /** The two loops over the dictionary: funding outpoints in, spent ones out. */
  method Remaining(funding: seq<Txo>, spending: seq<SpendingInput>) returns (dict: set<OutPoint>)
    ensures dict == Points(funding) - SpentPoints(spending)
  {
    hide Points;
    hide SpentPoints;
    dict := {};
    NoPoints();
    assert funding[..0] == [] && spending[..0] == [];
    for i := 0 to |funding|
      invariant dict == Points(funding[..i])
    {
      dict := dict + {PointOf(funding[i])};
      PointsPush(funding, i);
    }
    assert funding[..|funding|] == funding;
    for i := 0 to |spending|
      invariant dict == Points(funding) - SpentPoints(spending[..i])
    {
      dict := dict - {spending[i].outpoint};
      SpentPush(spending, i);
    }
    assert spending[..|spending|] == spending;
  }

  lemma NoPoints()
    ensures Points([]) == {} && SpentPoints([]) == {}
  {
  }

  lemma PointsPush(txos: seq<Txo>, i: nat)
    requires i < |txos|
    ensures Points(txos[..i + 1]) == Points(txos[..i]) + {PointOf(txos[i])}
  {
    var a, b := txos[..i + 1], txos[..i];
    assert forall j :: 0 <= j < i ==> a[j] == b[j];
    forall op | op in Points(b)
      ensures op in Points(a)
    {
      var j :| 0 <= j < |b| && op == PointOf(b[j]);
      assert op == PointOf(a[j]);
    }
    assert PointOf(a[i]) in Points(a);
  }

  lemma SpentPush(xs: seq<SpendingInput>, i: nat)
    requires i < |xs|
    ensures SpentPoints(xs[..i + 1]) == SpentPoints(xs[..i]) + {xs[i].outpoint}
  {
    var a, b := xs[..i + 1], xs[..i];
    assert forall j :: 0 <= j < i ==> a[j] == b[j];
    forall op | op in SpentPoints(b)
      ensures op in SpentPoints(a)
    {
      var j :| 0 <= j < |b| && op == b[j].outpoint;
      assert op == a[j].outpoint;
    }
    assert a[i].outpoint in SpentPoints(a);
  }

  // ---------------------------------------------------------------- against the transactions themselves

  /** Some transaction of the store, within the height bound, pays the script at this outpoint. */
  ghost predicate Paid(s: Contents, v: Headers, txs: set<Tx>, scriptHash: Hash, bound: nat, op: OutPoint) {
    exists tx :: tx in txs && Funds(s, v, scriptHash, bound, tx, Txo(op.txid, op.vout, TxHeight(s, v, op.txid)))
  }

  /** Some transaction of the store, within the height bound, spends this outpoint. */
  ghost predicate Spent(s: Contents, v: Headers, txs: set<Tx>, bound: nat, op: OutPoint) {
    exists tx :: Spender(s, v, txs, op, bound, tx)
  }

  /** What a lookup of `op` in this store needs in order to be exact. */
  ghost predicate Lookable(s: Contents, v: Headers, txs: set<Tx>, bound: nat, op: OutPoint) {
    && TruncationSafe(txs, op) && op.txid != NULL_HASH
    && forall t, u :: Spender(s, v, txs, op, bound, t) && Spender(s, v, txs, op, bound, u) ==> t == u
  }

  lemma FundingPoints(s: Contents, v: Headers, txs: set<Tx>, scriptHash: Hash, bound: nat, op: OutPoint)
    requires Serves(s, txs) && PrefixesDistinct(txs) && ScriptDistinct(txs, scriptHash)
    ensures FundingOutputs(s, v, scriptHash, bound).Ok?
    ensures op in Points(FundingOutputs(s, v, scriptHash, bound).value) <==> Paid(s, v, txs, scriptHash, bound, op)
  {
    hide Serves;
    hide FundingOutputs;
    var o := Txo(op.txid, op.vout, TxHeight(s, v, op.txid));
    FundingExact(s, v, txs, scriptHash, bound, o);
    var funding := FundingOutputs(s, v, scriptHash, bound).value;
    if op in Points(funding) {
      var i :| 0 <= i < |funding| && op == PointOf(funding[i]);
      FundingExact(s, v, txs, scriptHash, bound, funding[i]);
      assert funding[i] in funding && funding[i] == o;
    }
    if o in funding {
      var i :| 0 <= i < |funding| && funding[i] == o;
      assert op == PointOf(funding[i]);
    }
  }

  lemma {:induction false} SpentFound(s: Contents, v: Headers, txs: set<Tx>, bound: nat, txos: seq<Txo>)
    requires Serves(s, txs) && PrefixesDistinct(txs)
    requires forall i :: 0 <= i < |txos| ==> Lookable(s, v, txs, bound, PointOf(txos[i]))
    ensures SpendingsFor(s, v, bound, txos).Ok?
    ensures forall op :: op in SpentPoints(SpendingsFor(s, v, bound, txos).value) <==> op in Points(txos) && Spent(s, v, txs, bound, op)
  {
    hide Serves;
    hide SpendingInputOf;
    hide Spent;
    hide Lookable;
    if txos != [] {
      var n := |txos| - 1;
      var op := PointOf(txos[n]);
      assert forall i :: 0 <= i < n ==> txos[..n][i] == txos[i];
      SpentFound(s, v, txs, bound, txos[..n]);
      SpentOne(s, v, txs, bound, op);
      PointsPush(txos, n);
      assert txos[..n + 1] == txos;
      var before := SpendingsFor(s, v, bound, txos[..n]).value;
      var xs := SpendingsFor(s, v, bound, txos).value;
      if Spent(s, v, txs, bound, op) {
        SpentPush(xs, |before|);
        assert xs[..|before|] == before && xs[..|before| + 1] == xs;
      } else {
        assert xs == before;
      }
    }
  }

  lemma SpentOne(s: Contents, v: Headers, txs: set<Tx>, bound: nat, op: OutPoint)
    requires Serves(s, txs) && PrefixesDistinct(txs) && Lookable(s, v, txs, bound, op)
    ensures SpendingInputOf(s, v, op, bound).Ok?
    ensures SpendingInputOf(s, v, op, bound).value.Some? <==> Spent(s, v, txs, bound, op)
    ensures SpendingInputOf(s, v, op, bound).value.Some? ==> SpendingInputOf(s, v, op, bound).value.value.outpoint == op
  {
    hide Serves;
    hide Spender;
    SpenderUnique(s, v, txs, op, bound);
    SpendingExact(s, v, txs, op, bound);
  }

  // ---------------------------------------------------------------- without heights

  /** Some of these transactions pays the script at this outpoint. */
  ghost predicate PaidBy(txs: set<Tx>, scriptHash: Hash, op: OutPoint) {
    exists tx :: tx in txs && tx.id == op.txid && op.vout < |tx.outputs| && tx.outputs[op.vout] == scriptHash
  }

  /** Some of these transactions has the outpoint among its inputs. */
  ghost predicate SpentBy(txs: set<Tx>, op: OutPoint) {
    exists tx :: tx in txs && op in tx.inputs
  }

  /** Truncation confuses no input with `op`, and at most one of these transactions spends it. */
  ghost predicate Unambiguous(txs: set<Tx>, op: OutPoint) {
    && TruncationSafe(txs, op) && op.txid != NULL_HASH
    && forall t, u :: t in txs && u in txs && op in t.inputs && op in u.inputs ==> t == u
  }

  ghost predicate ShortList(v: Headers) {
    forall i :: 0 <= i < |v.entries| ==> v.entries[i].height <= 9999999999
  }

  /** In a short list the bound of the query leaves nothing out. */
  lemma BoundIsNone(s: Contents, v: Headers, txs: set<Tx>, scriptHash: Hash, op: OutPoint)
    requires ShortList(v)
    ensures Paid(s, v, txs, scriptHash, NO_BOUND, op) <==> PaidBy(txs, scriptHash, op)
    ensures Spent(s, v, txs, NO_BOUND, op) <==> SpentBy(txs, op)
    ensures Unambiguous(txs, op) ==> Lookable(s, v, txs, NO_BOUND, op)
  {
    forall x: Hash
      ensures TxHeight(s, v, x) <= NO_BOUND
    {
    }
    hide TxHeight;
    hide ShortList;
    if tx :| tx in txs && tx.id == op.txid && op.vout < |tx.outputs| && tx.outputs[op.vout] == scriptHash {
      assert Funds(s, v, scriptHash, NO_BOUND, tx, Txo(op.txid, op.vout, TxHeight(s, v, op.txid)));
    }
    if tx :| tx in txs && op in tx.inputs {
      assert Spender(s, v, txs, op, NO_BOUND, tx);
    }
  }

  /** The two stores and the transactions they serve. */
  datatype Sides = Sides(db: Contents, pool: Contents, indexed: set<Tx>, tracked: set<Tx>, headers: Headers) {

    ghost predicate PaidIn(scriptHash: Hash, op: OutPoint) {
      PaidBy(indexed, scriptHash, op)
    }

    ghost predicate PaidInPool(scriptHash: Hash, op: OutPoint) {
      PaidBy(tracked, scriptHash, op)
    }

    ghost predicate SpentIn(op: OutPoint) {
      SpentBy(indexed, op)
    }

    ghost predicate SpentInPool(op: OutPoint) {
      SpentBy(tracked, op)
    }

    /** No height of the list is above the bound that the query asks with. */
    ghost predicate Short() {
      ShortList(headers)
    }

    /** Each store serves its transactions, and nothing collides. */
    ghost predicate Clean(scriptHash: Hash) {
      Serves(db, indexed) && Serves(pool, tracked) && CollisionFree(scriptHash)
    }

    /** Prefixes and truncated outpoints are unambiguous, and within one store no output of the script is spent twice. */
    ghost predicate CollisionFree(scriptHash: Hash) {
      && PrefixesDistinct(indexed) && PrefixesDistinct(tracked)
      && ScriptDistinct(indexed, scriptHash) && ScriptDistinct(tracked, scriptHash)
      && (forall op {:trigger CleanAt(scriptHash, op)} :: CleanAt(scriptHash, op))
    }

    ghost predicate CleanAt(scriptHash: Hash, op: OutPoint) {
      && (PaidIn(scriptHash, op) ==> Unambiguous(indexed, op))
      && (PaidIn(scriptHash, op) || PaidInPool(scriptHash, op) ==> Unambiguous(tracked, op))
    }

    /** The reply of the UTXO query, as a set. */
    ghost predicate Listed(scriptHash: Hash, op: OutPoint)
      requires StatusOf(db, pool, headers, scriptHash, 9999999999, Limit(false, 0)).Ok?
    {
      var status := StatusOf(db, pool, headers, scriptHash, 9999999999, Limit(false, 0)).value;
      op in Points(status.Funding()) - SpentPoints(status.Spending())
    }

    /** An output paying the script that no transaction of either store spends. */
    ghost predicate Unspent(scriptHash: Hash, op: OutPoint) {
      (PaidIn(scriptHash, op) || PaidInPool(scriptHash, op)) && !SpentIn(op) && !SpentInPool(op)
    }
  }

  lemma PointsConcat(a: seq<Txo>, b: seq<Txo>)
    ensures Points(a + b) == Points(a) + Points(b)
  {
    forall op | op in Points(a) + Points(b)
      ensures op in Points(a + b)
    {
      if op in Points(a) {
        var i :| 0 <= i < |a| && op == PointOf(a[i]);
        assert op == PointOf((a + b)[i]);
      } else {
        var i :| 0 <= i < |b| && op == PointOf(b[i]);
        assert op == PointOf((a + b)[|a| + i]);
      }
    }
    forall op | op in Points(a + b)
      ensures op in Points(a) + Points(b)
    {
      var i :| 0 <= i < |a + b| && op == PointOf((a + b)[i]);
      assert i < |a| ==> op == PointOf(a[i]);
      assert i >= |a| ==> op == PointOf(b[i - |a|]);
    }
  }

  lemma SpentConcat(a: seq<SpendingInput>, b: seq<SpendingInput>)
    ensures SpentPoints(a + b) == SpentPoints(a) + SpentPoints(b)
  {
    forall op | op in SpentPoints(a) + SpentPoints(b)
      ensures op in SpentPoints(a + b)
    {
      if op in SpentPoints(a) {
        var i :| 0 <= i < |a| && op == a[i].outpoint;
        assert op == (a + b)[i].outpoint;
      } else {
        var i :| 0 <= i < |b| && op == b[i].outpoint;
        assert op == (a + b)[|a| + i].outpoint;
      }
    }
    forall op | op in SpentPoints(a + b)
      ensures op in SpentPoints(a) + SpentPoints(b)
    {
      var i :| 0 <= i < |a + b| && op == (a + b)[i].outpoint;
      assert i < |a| ==> op == a[i].outpoint;
      assert i >= |a| ==> op == b[i - |a|].outpoint;
    }
  }

  /** The status of one store: what it funds, and which of the asked outputs it spends. */
  lemma SideFound(s: Contents, v: Headers, txs: set<Tx>, scriptHash: Hash, bound: nat, extra: seq<Txo>)
    requires Serves(s, txs) && PrefixesDistinct(txs) && ScriptDistinct(txs, scriptHash)
    requires forall op :: Paid(s, v, txs, scriptHash, bound, op) || op in Points(extra) ==> Lookable(s, v, txs, bound, op)
    ensures SideStatus(s, v, scriptHash, bound, Limit(false, 0), extra).Ok?
    ensures var (funding, spending) := SideStatus(s, v, scriptHash, bound, Limit(false, 0), extra).value;
            && (forall op :: op in Points(funding) <==> Paid(s, v, txs, scriptHash, bound, op))
            && (forall op :: op in SpentPoints(spending) <==>
                  (Paid(s, v, txs, scriptHash, bound, op) || op in Points(extra)) && Spent(s, v, txs, bound, op))
  {
    hide Serves;
    hide FundingOutputs;
    hide SpendingsFor;
    hide Lookable;
    hide Paid;
    hide Spent;
    var funding := FundingOutputs(s, v, scriptHash, bound);
    forall op
      ensures funding.Ok? && (op in Points(funding.value) <==> Paid(s, v, txs, scriptHash, bound, op))
    {
      FundingPoints(s, v, txs, scriptHash, bound, op);
    }
    assert funding.Ok? by {
      FundingPoints(s, v, txs, scriptHash, bound, OutPoint(NULL_HASH, 0));
    }
    PointsConcat(funding.value, extra);
    var asked := funding.value + extra;
    forall i | 0 <= i < |asked|
      ensures Lookable(s, v, txs, bound, PointOf(asked[i]))
    {
      assert PointOf(asked[i]) in Points(asked);
    }
    SpentFound(s, v, txs, bound, asked);
  }

  // ---------------------------------------------------------------- the status, for every bound and limit

  /** Two stored transactions within the bound are candidates for having spent `op`, so the lookup panics. */
  ghost predicate Conflicted(s: Contents, v: Headers, txs: set<Tx>, bound: nat, op: OutPoint) {
    exists x, y :: x != y && Candidate(s, v, txs, op, bound, x) && Candidate(s, v, txs, op, bound, y)
  }

  /** `x` reports the candidate for one of these outputs. */
  ghost predicate LookedUp(s: Contents, v: Headers, txs: set<Tx>, bound: nat, txos: set<Txo>, x: SpendingInput) {
    && x.outpoint in PointsIn(txos) && x.height == TxHeight(s, v, x.txid)
    && Candidate(s, v, txs, x.outpoint, bound, x.txid)
  }

  function PointsIn(txos: set<Txo>): set<OutPoint> {
    set o | o in txos :: PointOf(o)
  }

  function TxoSet(txos: seq<Txo>): (r: set<Txo>)
    ensures forall o :: o in r <==> o in txos
  {
    set o | o in txos
  }

  /** The spenders of a list of outputs: a panic exactly when one of them is conflicted, otherwise each one's candidate. */
  lemma {:induction false} SpendingsExact(s: Contents, v: Headers, txs: set<Tx>, bound: nat, txos: seq<Txo>)
    requires Serves(s, txs)
    ensures SpendingsFor(s, v, bound, txos) == Panic <==> exists op :: op in PointsIn(TxoSet(txos)) && Conflicted(s, v, txs, bound, op)
    ensures SpendingsFor(s, v, bound, txos) != Err
    ensures SpendingsFor(s, v, bound, txos).Ok? ==>
              forall x :: x in SpendingsFor(s, v, bound, txos).value <==> LookedUp(s, v, txs, bound, TxoSet(txos), x)
  {
    hide Serves;
    hide SpendingInputOf;
    hide Candidate;
    hide Conflicted;
    if txos != [] {
      var n := |txos| - 1;
      var op := PointOf(txos[n]);
      SpendingsExact(s, v, txs, bound, txos[..n]);
      PointsGrow(txos);
      OneSpending(s, v, txs, bound, op);
    }
  }

  lemma PointsGrow(txos: seq<Txo>)
    requires txos != []
    ensures PointsIn(TxoSet(txos)) == PointsIn(TxoSet(txos[..|txos| - 1])) + {PointOf(txos[|txos| - 1])}
  {
    var n := |txos| - 1;
    assert txos == txos[..n] + [txos[n]];
    assert TxoSet(txos) == TxoSet(txos[..n]) + {txos[n]};
  }

  /** The lookup of one output, in terms of its candidates. */
  lemma OneSpending(s: Contents, v: Headers, txs: set<Tx>, bound: nat, op: OutPoint)
    requires Serves(s, txs)
    ensures SpendingInputOf(s, v, op, bound) != Err
    ensures SpendingInputOf(s, v, op, bound) == Panic <==> Conflicted(s, v, txs, bound, op)
    ensures SpendingInputOf(s, v, op, bound).Ok? ==>
              forall x: SpendingInput :: SpendingInputOf(s, v, op, bound).value == Some(x) <==>
                x.outpoint == op && x.height == TxHeight(s, v, x.txid) && Candidate(s, v, txs, op, bound, x.txid)
  {
    SpendingExact(s, v, txs, op, bound);
    hide Serves;
    hide Candidate;
    if SpendingInputOf(s, v, op, bound).Ok? {
      var r := SpendingInputOf(s, v, op, bound).value;
      forall x: SpendingInput | x.outpoint == op && x.height == TxHeight(s, v, x.txid) && Candidate(s, v, txs, op, bound, x.txid)
        ensures r == Some(x)
      {
        assert r.Some? && Candidate(s, v, txs, op, bound, r.value.txid);
      }
    }
  }

  /** The reported spenders, one for each of the outputs that has a candidate, in the order of the outputs. */
  ghost predicate InOrder(s: Contents, v: Headers, txs: set<Tx>, bound: nat, txos: seq<Txo>, spending: seq<SpendingInput>) {
    exists at :: ReportedAt(s, v, txs, bound, txos, spending, at)
  }

  /** `at[k]` is the position of the output whose spender is the `k`-th reported one. */
  ghost predicate ReportedAt(s: Contents, v: Headers, txs: set<Tx>, bound: nat, txos: seq<Txo>, spending: seq<SpendingInput>, at: seq<nat>) {
    && |at| == |spending|
    && (forall k :: 0 <= k < |at| ==> at[k] < |txos| && spending[k].outpoint == PointOf(txos[at[k]]))
    && (forall k :: 0 <= k < |spending| ==> Candidate(s, v, txs, spending[k].outpoint, bound, spending[k].txid))
    && (forall k, l :: 0 <= k < l < |at| ==> at[k] < at[l])
    && (forall i, x :: 0 <= i < |txos| && Candidate(s, v, txs, PointOf(txos[i]), bound, x) ==> i in at)
  }

  lemma {:induction false} SpendingsInOrder(s: Contents, v: Headers, txs: set<Tx>, bound: nat, txos: seq<Txo>) returns (at: seq<nat>)
    requires Serves(s, txs) && SpendingsFor(s, v, bound, txos).Ok?
    ensures ReportedAt(s, v, txs, bound, txos, SpendingsFor(s, v, bound, txos).value, at)
  {
    hide Serves;
    hide SpendingInputOf;
    hide ReportedAt;
    at := [];
    if txos == [] {
      NothingReported(s, v, txs, bound);
    } else {
      var n := |txos| - 1;
      at := SpendingsInOrder(s, v, txs, bound, txos[..n]);
      assert txos == txos[..n] + [txos[n]];
      OneSpending(s, v, txs, bound, PointOf(txos[n]));
      var before, last := SpendingsFor(s, v, bound, txos[..n]).value, SpendingInputOf(s, v, PointOf(txos[n]), bound).value;
      hide Candidate;
      hide Conflicted;
      if last.Some? {
        ReportedMore(s, v, txs, bound, txos[..n], txos[n], before, last.value, at);
        at := at + [n];
      } else {
        NoCandidate(s, v, txs, bound, PointOf(txos[n]));
        ReportedSame(s, v, txs, bound, txos[..n], txos[n], before, at);
        assert before + [] == before;
      }
    }
  }

  lemma NothingReported(s: Contents, v: Headers, txs: set<Tx>, bound: nat)
    ensures ReportedAt(s, v, txs, bound, [], [], [])
  {
  }

  lemma ReportedMore(s: Contents, v: Headers, txs: set<Tx>, bound: nat, txos: seq<Txo>, o: Txo, spending: seq<SpendingInput>, x: SpendingInput, at: seq<nat>)
    requires ReportedAt(s, v, txs, bound, txos, spending, at)
    requires x.outpoint == PointOf(o) && Candidate(s, v, txs, x.outpoint, bound, x.txid)
    ensures ReportedAt(s, v, txs, bound, txos + [o], spending + [x], at + [|txos|])
  {
    hide Candidate;
    var more := at + [|txos|];
    assert |txos| in more && forall i :: i in at ==> i in more;
  }

  lemma ReportedSame(s: Contents, v: Headers, txs: set<Tx>, bound: nat, txos: seq<Txo>, o: Txo, spending: seq<SpendingInput>, at: seq<nat>)
    requires ReportedAt(s, v, txs, bound, txos, spending, at)
    requires forall x: Hash :: !Candidate(s, v, txs, PointOf(o), bound, x)
    ensures ReportedAt(s, v, txs, bound, txos + [o], spending, at)
  {
    hide Candidate;
  }

  lemma NoCandidate(s: Contents, v: Headers, txs: set<Tx>, bound: nat, op: OutPoint)
    requires Serves(s, txs) && SpendingInputOf(s, v, op, bound) == Ok(None)
    ensures forall x: Hash :: !Candidate(s, v, txs, op, bound, x)
  {
    SpendingExact(s, v, txs, op, bound);
  }

  /** The list holds each member of the set exactly once. */
  ghost predicate Lists(txos: seq<Txo>, r: set<Txo>) {
    Distinct(txos) && forall o :: o in txos <==> o in r
  }

  lemma {:induction false} ListsAsMany(txos: seq<Txo>, r: set<Txo>)
    requires Lists(txos, r)
    ensures |txos| == |r|
  {
    if txos == [] {
      assert r == {};
    } else {
      var n := |txos| - 1;
      assert txos == txos[..n] + [txos[n]];
      assert forall i :: 0 <= i < n ==> txos[i] != txos[n];
      assert Lists(txos[..n], r - {txos[n]});
      ListsAsMany(txos[..n], r - {txos[n]});
    }
  }

  /** `paid` are the outputs that the funding query joins for the script in this store. */
  ghost predicate Joined(s: Contents, v: Headers, txs: set<Tx>, scriptHash: Hash, bound: nat, paid: set<Txo>) {
    forall o :: o in paid <==> FundsLike(s, v, txs, scriptHash, bound, o)
  }

  /** Some of these outputs has two candidate spenders in this store. */
  ghost predicate SomeConflicted(s: Contents, v: Headers, txs: set<Tx>, bound: nat, txos: set<Txo>) {
    exists op :: op in PointsIn(txos) && Conflicted(s, v, txs, bound, op)
  }

  /** The status of one store, with no hypothesis on prefixes and for every bound and limit. */
  lemma SideExact(s: Contents, v: Headers, txs: set<Tx>, scriptHash: Hash, bound: nat, limit: Limit, extra: seq<Txo>, paid: set<Txo>)
    requires Serves(s, txs) && Joined(s, v, txs, scriptHash, bound, paid)
    ensures SideStatus(s, v, scriptHash, bound, limit, extra) == Err <==> (limit.inUse && 0 < limit.max < |paid|)
    ensures SideStatus(s, v, scriptHash, bound, limit, extra) == Panic <==>
            !(limit.inUse && 0 < limit.max < |paid|) && SomeConflicted(s, v, txs, bound, paid + TxoSet(extra))
    ensures SideStatus(s, v, scriptHash, bound, limit, extra).Ok? ==>
              var (funding, spending) := SideStatus(s, v, scriptHash, bound, limit, extra).value;
              && Lists(funding, paid) && KeyOrdered(scriptHash, funding) && InOrder(s, v, txs, bound, funding + extra, spending)
              && forall x :: x in spending <==> LookedUp(s, v, txs, bound, paid + TxoSet(extra), x)
  {
    hide Serves;
    FundingFound(s, v, txs, scriptHash, bound);
    hide FundingOutputs;
    hide FundsLike;
    hide LookedUp;
    hide Conflicted;
    hide SpendingsFor;
    var funding := FundingOutputs(s, v, scriptHash, bound).value;
    ListsAsMany(funding, paid);
    FundingOrdered(s, v, txs, scriptHash, bound);
    hide KeyOrdered;
    hide ReportedAt;
    SpendingsExact(s, v, txs, bound, funding + extra);
    assert TxoSet(funding + extra) == paid + TxoSet(extra);
    if SpendingsFor(s, v, bound, funding + extra).Ok? {
      var at := SpendingsInOrder(s, v, txs, bound, funding + extra);
    }
  }

  /**
   * The whole status, with no hypothesis on prefixes and for every bound and limit: an error exactly when a side
   * reached without a panic has too many outputs, a panic exactly when an output reached without an error is
   * conflicted in a store where it is looked up, and otherwise each joined output once with its candidate spenders.
   */
  lemma StatusExact(w: Sides, scriptHash: Hash, bound: nat, limit: Limit, paid: set<Txo>, pooled: set<Txo>)
    requires Serves(w.db, w.indexed) && Serves(w.pool, w.tracked)
    requires Joined(w.db, w.headers, w.indexed, scriptHash, bound, paid)
    requires Joined(w.pool, w.headers, w.tracked, scriptHash, 9999999999, pooled)
    ensures StatusOf(w.db, w.pool, w.headers, scriptHash, bound, limit) == Err <==>
            || (limit.inUse && 0 < limit.max < |paid|)
            || (!SomeConflicted(w.db, w.headers, w.indexed, bound, paid) && (limit.inUse && 0 < limit.max < |pooled|))
    ensures StatusOf(w.db, w.pool, w.headers, scriptHash, bound, limit) == Panic <==>
            && !(limit.inUse && 0 < limit.max < |paid|)
            && (|| SomeConflicted(w.db, w.headers, w.indexed, bound, paid)
                || (!(limit.inUse && 0 < limit.max < |pooled|) && SomeConflicted(w.pool, w.headers, w.tracked, 9999999999, pooled + paid)))
    ensures StatusOf(w.db, w.pool, w.headers, scriptHash, bound, limit).Ok? ==>
              var status := StatusOf(w.db, w.pool, w.headers, scriptHash, bound, limit).value;
              && Lists(status.confirmedFunding, paid) && Lists(status.mempoolFunding, pooled)
              && KeyOrdered(scriptHash, status.confirmedFunding) && KeyOrdered(scriptHash, status.mempoolFunding)
              && InOrder(w.db, w.headers, w.indexed, bound, status.confirmedFunding, status.confirmedSpending)
              && InOrder(w.pool, w.headers, w.tracked, 9999999999, status.mempoolFunding + status.confirmedFunding, status.mempoolSpending)
              && (forall x :: x in status.confirmedSpending <==> LookedUp(w.db, w.headers, w.indexed, bound, paid, x))
              && (forall x :: x in status.mempoolSpending <==> LookedUp(w.pool, w.headers, w.tracked, 9999999999, pooled + paid, x))
  {
    hide Serves;
    hide Joined;
    hide SideStatus;
    hide SomeConflicted;
    hide LookedUp;
    SideExact(w.db, w.headers, w.indexed, scriptHash, bound, limit, [], paid);
    assert paid + TxoSet([]) == paid;
    hide KeyOrdered;
    hide InOrder;
    var confirmed := SideStatus(w.db, w.headers, scriptHash, bound, limit, []);
    if confirmed.Ok? {
      assert confirmed.value.0 + [] == confirmed.value.0;
      SideExact(w.pool, w.headers, w.tracked, scriptHash, 9999999999, limit, confirmed.value.0, pooled);
      assert TxoSet(confirmed.value.0) == paid;
    }
  }

  // ---------------------------------------------------------------- when nothing collides

  /** `paid` are the outputs paying the script in this store within the bound. */
  ghost predicate Pay(s: Contents, v: Headers, txs: set<Tx>, scriptHash: Hash, bound: nat, paid: set<Txo>) {
    forall o :: o in paid <==> exists tx :: tx in txs && Funds(s, v, scriptHash, bound, tx, o)
  }

  lemma PayJoined(s: Contents, v: Headers, txs: set<Tx>, scriptHash: Hash, bound: nat, paid: set<Txo>)
    requires Serves(s, txs) && PrefixesDistinct(txs) && ScriptDistinct(txs, scriptHash) && Pay(s, v, txs, scriptHash, bound, paid)
    ensures Joined(s, v, txs, scriptHash, bound, paid)
  {
    hide Serves;
    hide FundingOutputs;
    hide FundsLike;
    hide Funds;
    FundingFound(s, v, txs, scriptHash, bound);
    forall o
      ensures o in paid <==> FundsLike(s, v, txs, scriptHash, bound, o)
    {
      FundingExact(s, v, txs, scriptHash, bound, o);
    }
  }

  /** `x` reports a stored transaction that spends one of these outputs. */
  ghost predicate Reports(s: Contents, v: Headers, txs: set<Tx>, bound: nat, txos: set<Txo>, x: SpendingInput) {
    && x.outpoint in PointsIn(txos) && x.height == TxHeight(s, v, x.txid)
    && exists tx :: Spender(s, v, txs, x.outpoint, bound, tx) && tx.id == x.txid
  }

  /** With unambiguous lookups no output is conflicted, and the candidates are the spenders. */
  lemma LookableExact(s: Contents, v: Headers, txs: set<Tx>, bound: nat, txos: set<Txo>)
    requires PrefixesDistinct(txs) && forall op :: op in PointsIn(txos) ==> Lookable(s, v, txs, bound, op)
    ensures !SomeConflicted(s, v, txs, bound, txos)
    ensures forall x :: LookedUp(s, v, txs, bound, txos, x) <==> Reports(s, v, txs, bound, txos, x)
  {
    hide Candidate;
    hide Spender;
    hide TxHeight;
    forall op, x | op in PointsIn(txos)
      ensures Candidate(s, v, txs, op, bound, x) <==> exists tx :: Spender(s, v, txs, op, bound, tx) && tx.id == x
    {
      CandidateSpends(s, v, txs, op, bound, x);
    }
    forall op | op in PointsIn(txos)
      ensures !Conflicted(s, v, txs, bound, op)
    {
    }
  }

  /**
   * When nothing collides, for every bound and limit: an error exactly when one side has more paying outputs than
   * the limit; otherwise the outputs paying the script within the bound, each once, and their spenders.
   */
  lemma StatusClean(w: Sides, scriptHash: Hash, bound: nat, limit: Limit, paid: set<Txo>, pooled: set<Txo>)
    requires Serves(w.db, w.indexed) && PrefixesDistinct(w.indexed) && ScriptDistinct(w.indexed, scriptHash)
    requires Serves(w.pool, w.tracked) && PrefixesDistinct(w.tracked) && ScriptDistinct(w.tracked, scriptHash)
    requires Pay(w.db, w.headers, w.indexed, scriptHash, bound, paid)
    requires Pay(w.pool, w.headers, w.tracked, scriptHash, 9999999999, pooled)
    requires forall op :: op in PointsIn(paid) ==> Lookable(w.db, w.headers, w.indexed, bound, op)
    requires forall op :: op in PointsIn(pooled + paid) ==> Lookable(w.pool, w.headers, w.tracked, 9999999999, op)
    ensures StatusOf(w.db, w.pool, w.headers, scriptHash, bound, limit) == Err <==>
            (limit.inUse && 0 < limit.max < |paid|) || (limit.inUse && 0 < limit.max < |pooled|)
    ensures !(limit.inUse && 0 < limit.max < |paid|) && !(limit.inUse && 0 < limit.max < |pooled|) ==>
              && StatusOf(w.db, w.pool, w.headers, scriptHash, bound, limit).Ok?
              && var status := StatusOf(w.db, w.pool, w.headers, scriptHash, bound, limit).value;
              && Lists(status.confirmedFunding, paid) && Lists(status.mempoolFunding, pooled)
              && KeyOrdered(scriptHash, status.confirmedFunding) && KeyOrdered(scriptHash, status.mempoolFunding)
              && InOrder(w.db, w.headers, w.indexed, bound, status.confirmedFunding, status.confirmedSpending)
              && InOrder(w.pool, w.headers, w.tracked, 9999999999, status.mempoolFunding + status.confirmedFunding, status.mempoolSpending)
              && (forall x :: x in status.confirmedSpending <==> Reports(w.db, w.headers, w.indexed, bound, paid, x))
              && (forall x :: x in status.mempoolSpending <==> Reports(w.pool, w.headers, w.tracked, 9999999999, pooled + paid, x))
  {
    hide Serves;
    hide StatusOf;
    hide Lookable;
    hide Pay;
    hide Joined;
    hide LookedUp;
    hide Reports;
    hide SomeConflicted;
    hide KeyOrdered;
    hide InOrder;
    PayJoined(w.db, w.headers, w.indexed, scriptHash, bound, paid);
    PayJoined(w.pool, w.headers, w.tracked, scriptHash, 9999999999, pooled);
    StatusExact(w, scriptHash, bound, limit, paid, pooled);
    LookableExact(w.db, w.headers, w.indexed, bound, paid);
    LookableExact(w.pool, w.headers, w.tracked, 9999999999, pooled + paid);
  }

  /** The UTXO query panics exactly when some joined output is conflicted in a store where it is looked up. */
  lemma UtxosPanic(w: Sides, scriptHash: Hash, paid: set<Txo>, pooled: set<Txo>)
    requires Serves(w.db, w.indexed) && Serves(w.pool, w.tracked)
    requires Joined(w.db, w.headers, w.indexed, scriptHash, 9999999999, paid)
    requires Joined(w.pool, w.headers, w.tracked, scriptHash, 9999999999, pooled)
    ensures StatusOf(w.db, w.pool, w.headers, scriptHash, 9999999999, Limit(false, 0)).Ok? <==>
            && !SomeConflicted(w.db, w.headers, w.indexed, 9999999999, paid)
            && !SomeConflicted(w.pool, w.headers, w.tracked, 9999999999, pooled + paid)
  {
    hide Serves;
    hide StatusOf;
    hide Joined;
    hide SomeConflicted;
    hide LookedUp;
    StatusExact(w, scriptHash, 9999999999, Limit(false, 0), paid, pooled);
  }

  /** What the query lists, for lists of any length: heights above the bound are left out. */
  lemma ListedWithin(w: Sides, scriptHash: Hash)
    requires Serves(w.db, w.indexed) && PrefixesDistinct(w.indexed) && ScriptDistinct(w.indexed, scriptHash)
    requires Serves(w.pool, w.tracked) && PrefixesDistinct(w.tracked) && ScriptDistinct(w.tracked, scriptHash)
    requires forall op :: Paid(w.db, w.headers, w.indexed, scriptHash, 9999999999, op) ==> Lookable(w.db, w.headers, w.indexed, 9999999999, op)
    requires forall op :: Paid(w.db, w.headers, w.indexed, scriptHash, 9999999999, op) || Paid(w.pool, w.headers, w.tracked, scriptHash, 9999999999, op) ==>
               Lookable(w.pool, w.headers, w.tracked, 9999999999, op)
    ensures StatusOf(w.db, w.pool, w.headers, scriptHash, 9999999999, Limit(false, 0)).Ok?
    ensures forall op :: w.Listed(scriptHash, op) <==>
              var paid := Paid(w.db, w.headers, w.indexed, scriptHash, 9999999999, op);
              && (paid || Paid(w.pool, w.headers, w.tracked, scriptHash, 9999999999, op))
              && !(paid && Spent(w.db, w.headers, w.indexed, 9999999999, op)) && !Spent(w.pool, w.headers, w.tracked, 9999999999, op)
  {
    hide Serves;
    hide SideStatus;
    hide Lookable;
    hide Paid;
    hide Spent;
    SideFound(w.db, w.headers, w.indexed, scriptHash, 9999999999, []);
    var (funding, spending) := SideStatus(w.db, w.headers, scriptHash, 9999999999, Limit(false, 0), []).value;
    SideFound(w.pool, w.headers, w.tracked, scriptHash, 9999999999, funding);
    var (poolFunding, poolSpending) := SideStatus(w.pool, w.headers, scriptHash, 9999999999, Limit(false, 0), funding).value;
    PointsConcat(funding, poolFunding);
    SpentConcat(spending, poolSpending);
  }

  /** The query never panics on clean stores, and lists exactly what is paid minus the spends it looks up. */
  lemma UtxosListed(w: Sides, scriptHash: Hash)
    requires w.Clean(scriptHash) && w.Short()
    ensures StatusOf(w.db, w.pool, w.headers, scriptHash, 9999999999, Limit(false, 0)).Ok?
    ensures forall op :: w.Listed(scriptHash, op) <==>
              && (w.PaidIn(scriptHash, op) || w.PaidInPool(scriptHash, op))
              && !(w.PaidIn(scriptHash, op) && w.SpentIn(op)) && !w.SpentInPool(op)
  {
    hide Serves;
    hide StatusOf;
    hide Sides.Listed;
    hide Lookable;
    hide Unambiguous;
    hide Paid;
    hide Spent;
    hide PaidBy;
    hide SpentBy;
    forall op
      ensures Paid(w.db, w.headers, w.indexed, scriptHash, 9999999999, op) <==> w.PaidIn(scriptHash, op)
      ensures Paid(w.pool, w.headers, w.tracked, scriptHash, 9999999999, op) <==> w.PaidInPool(scriptHash, op)
      ensures Spent(w.db, w.headers, w.indexed, 9999999999, op) <==> w.SpentIn(op)
      ensures Spent(w.pool, w.headers, w.tracked, 9999999999, op) <==> w.SpentInPool(op)
      ensures w.PaidIn(scriptHash, op) ==> Lookable(w.db, w.headers, w.indexed, 9999999999, op)
      ensures w.PaidIn(scriptHash, op) || w.PaidInPool(scriptHash, op) ==> Lookable(w.pool, w.headers, w.tracked, 9999999999, op)
    {
      assert w.CleanAt(scriptHash, op);
      BoundIsNone(w.db, w.headers, w.indexed, scriptHash, op);
      BoundIsNone(w.pool, w.headers, w.tracked, scriptHash, op);
    }
    ListedWithin(w, scriptHash);
  }

  /**
   * The reply is exactly the unspent outputs of the script, if and only if no output known from the mempool
   * alone has a spender in the database and none in the mempool.
   */
  lemma UtxosExact(w: Sides, scriptHash: Hash)
    requires w.Clean(scriptHash) && w.Short()
    ensures StatusOf(w.db, w.pool, w.headers, scriptHash, 9999999999, Limit(false, 0)).Ok?
    ensures (forall op :: w.Listed(scriptHash, op) <==> w.Unspent(scriptHash, op)) <==>
            (forall op :: w.PaidInPool(scriptHash, op) && !w.PaidIn(scriptHash, op) && w.SpentIn(op) ==> w.SpentInPool(op))
  {
    hide PaidBy;
    hide SpentBy;
    hide StatusOf;
    UtxosListed(w, scriptHash);
    assert forall op :: w.Listed(scriptHash, op) <==>
      && (w.PaidIn(scriptHash, op) || w.PaidInPool(scriptHash, op))
      && !(w.PaidIn(scriptHash, op) && w.SpentIn(op)) && !w.SpentInPool(op);
    hide Sides.Listed;
    if op :| w.PaidInPool(scriptHash, op) && !w.PaidIn(scriptHash, op) && w.SpentIn(op) && !w.SpentInPool(op) {
      assert w.Listed(scriptHash, op) && !w.Unspent(scriptHash, op);
    }
  }
}
