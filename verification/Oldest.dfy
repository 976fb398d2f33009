/** `Status::oldest`: the fold over funding and then spending entries, and what it picks. */
module Oldest {
  import opened ByteKeys
  import opened Query
  import opened Utxos

  datatype TxBlockIndex = TxBlockIndex(txid: Hash, height: nat)

  function FundingEntries(txos: seq<Txo>): (xs: seq<TxBlockIndex>)
    ensures |xs| == |txos|
  {
    seq(|txos|, i requires 0 <= i < |txos| => TxBlockIndex(txos[i].txid, txos[i].height))
  }

  function SpendingEntries(inputs: seq<SpendingInput>): (xs: seq<TxBlockIndex>)
    ensures |xs| == |inputs|
  {
    seq(|inputs|, i requires 0 <= i < |inputs| => TxBlockIndex(inputs[i].txid, inputs[i].height))
  }

  /** Funding entries followed by spending entries. */
  function Entries(status: Status): seq<TxBlockIndex> {
    FundingEntries(status.Funding()) + SpendingEntries(status.Spending())
  }

  predicate Replaces(current: nat, h: nat) {
    (current == 0 && h > 0) || h < current
  }

  /** The position of the entry held after the whole sequence. */
  function Picked(xs: seq<TxBlockIndex>): (r: Option<nat>)
    ensures r.None? <==> xs == []
    ensures r.Some? ==> r.value < |xs|
  {
    if xs == [] then None
    else
      var n := |xs| - 1;
      match Picked(xs[..n])
      case None => Some(n)
      case Some(i) => if Replaces(xs[i].height, xs[n].height) then Some(n) else Some(i)
  }

  method OldestEntry(status: Status) returns (r: Option<TxBlockIndex>)
    ensures r == Answer(status)
  {
    var found, min, entry := ScanFunding(status.Funding());
    found, min, entry := ScanSpending(FundingEntries(status.Funding()), status.Spending(), found, min, entry);
    r := entry;
  }

  /** The first loop. */
  method ScanFunding(funding: seq<Txo>) returns (found: bool, min: nat, r: Option<TxBlockIndex>)
    ensures Holds(FundingEntries(funding), found, min, r)
  {
    hide Picked;
    ghost var xs := FundingEntries(funding);
    found, min, r := false, 0, None;
    assert xs[..0] == [];
    for i := 0 to |funding|
      invariant Holds(xs[..i], found, min, r)
    {
      HoldsStep(xs, i, found, min, r);
      if !found || (min == 0 && funding[i].height > 0) || funding[i].height < min {
        min := funding[i].height;
        r := Some(TxBlockIndex(funding[i].txid, funding[i].height));
        found := true;
      }
    }
    assert xs[..|xs|] == xs;
  }

  /** The second loop, going on from what the first one holds. */
  method ScanSpending(ghost before: seq<TxBlockIndex>, spending: seq<SpendingInput>, found0: bool, min0: nat, r0: Option<TxBlockIndex>)
    returns (found: bool, min: nat, r: Option<TxBlockIndex>)
    requires Holds(before, found0, min0, r0)
    ensures Holds(before + SpendingEntries(spending), found, min, r)
  {
    hide Picked;
    hide Holds;
    ghost var xs := before + SpendingEntries(spending);
    found, min, r := found0, min0, r0;
    assert xs[..|before|] == before;
    for i := 0 to |spending|
      invariant Holds(xs[..|before| + i], found, min, r)
    {
      assert xs[|before| + i] == TxBlockIndex(spending[i].txid, spending[i].height);
      HoldsStep(xs, |before| + i, found, min, r);
      if !found || (min == 0 && spending[i].height > 0) || spending[i].height < min {
        min := spending[i].height;
        r := Some(TxBlockIndex(spending[i].txid, spending[i].height));
        found := true;
      }
    }
    assert xs[..|xs|] == xs;
  }

  ghost predicate Holds(xs: seq<TxBlockIndex>, found: bool, min: nat, r: Option<TxBlockIndex>) {
    match Picked(xs)
    case None => !found && r == None
    case Some(i) => found && r == Some(xs[i]) && min == xs[i].height
  }

  lemma HoldsStep(xs: seq<TxBlockIndex>, n: nat, found: bool, min: nat, r: Option<TxBlockIndex>)
    requires n < |xs| && Holds(xs[..n], found, min, r)
    ensures !found || (min == 0 && xs[n].height > 0) || xs[n].height < min ==> Holds(xs[..n + 1], true, xs[n].height, Some(xs[n]))
    ensures !(!found || (min == 0 && xs[n].height > 0) || xs[n].height < min) ==> Holds(xs[..n + 1], found, min, r)
  {
    assert xs[..n + 1][..n] == xs[..n];
  }

  // ---------------------------------------------------------------- what is picked

  /** `z` is one past the last entry of height 0, or 0 if there is none. */
  ghost predicate AfterLastZero(xs: seq<TxBlockIndex>, z: nat) {
    && z <= |xs|
    && (z > 0 ==> xs[z - 1].height == 0)
    && forall j :: z <= j < |xs| ==> xs[j].height > 0
  }

  /** The first least-height entry after the last zero; or, at a trailing zero, the first of the trailing zeros. */
  ghost predicate Best(xs: seq<TxBlockIndex>, z: nat, i: nat)
    requires AfterLastZero(xs, z)
  {
    && i < |xs|
    && if z < |xs| then
         && z <= i
         && (forall j :: z <= j < |xs| ==> xs[i].height <= xs[j].height)
         && (forall j :: z <= j < i ==> xs[i].height < xs[j].height)
       else
         && (forall j :: i <= j < |xs| ==> xs[j].height == 0)
         && (i > 0 ==> xs[i - 1].height > 0)
  }

  lemma {:induction false} PickedIsBest(xs: seq<TxBlockIndex>, z: nat)
    requires xs != [] && AfterLastZero(xs, z)
    ensures Best(xs, z, Picked(xs).value)
  {
    var n := |xs| - 1;
    var front := xs[..n];
    assert forall j :: 0 <= j < n ==> front[j] == xs[j];
    if n > 0 {
      var y := LastZeroOf(front);
      PickedIsBest(front, y);
      var i := Picked(front).value;
      assert Best(front, y, i);
      if xs[n].height > 0 {
        assert y == z;
      } else {
        assert z == |xs|;
      }
    }
  }

  lemma {:induction false} LastZeroOf(xs: seq<TxBlockIndex>) returns (z: nat)
    ensures AfterLastZero(xs, z)
  {
    if xs == [] || xs[|xs| - 1].height == 0 {
      z := |xs|;
    } else {
      z := LastZeroOf(xs[..|xs| - 1]);
    }
  }

  lemma BestUnique(xs: seq<TxBlockIndex>, z: nat, i: nat, j: nat)
    requires AfterLastZero(xs, z) && Best(xs, z, i) && Best(xs, z, j)
    ensures i == j
  {
    if i < j {
      NotBestLater(xs, z, i, j);
    } else if j < i {
      NotBestLater(xs, z, j, i);
    }
  }

  lemma NotBestLater(xs: seq<TxBlockIndex>, z: nat, i: nat, j: nat)
    requires AfterLastZero(xs, z) && Best(xs, z, i) && i < j < |xs|
    ensures !Best(xs, z, j)
  {
    assert z >= |xs| ==> xs[j - 1].height == 0;
    assert z < |xs| ==> xs[i].height <= xs[j].height;
  }

  /** `p` is the first entry of the least positive height: the earliest confirmed one. */
  ghost predicate EarliestConfirmed(xs: seq<TxBlockIndex>, p: nat) {
    && p < |xs| && xs[p].height > 0
    && (forall j :: 0 <= j < |xs| && xs[j].height > 0 ==> xs[p].height <= xs[j].height)
    && (forall j :: 0 <= j < p && xs[j].height > 0 ==> xs[p].height < xs[j].height)
  }

  /** The answer is the earliest confirmed entry if and only if no entry of height 0 comes after that entry. */
  lemma OldestIsEarliest(xs: seq<TxBlockIndex>, p: nat)
    requires EarliestConfirmed(xs, p)
    ensures Picked(xs) == Some(p) <==> forall j :: p < j < |xs| ==> xs[j].height > 0
  {
    var z := LastZeroOf(xs);
    PickedIsBest(xs, z);
    if forall j :: p < j < |xs| ==> xs[j].height > 0 {
      assert z <= p;
      assert Best(xs, z, p);
      BestUnique(xs, z, p, Picked(xs).value);
    } else {
      assert z > p;
    }
  }

  // ---------------------------------------------------------------- field by field

  datatype Field = ConfirmedFunding | MempoolFunding | ConfirmedSpending | MempoolSpending

  ghost function FieldEntries(status: Status, f: Field): seq<TxBlockIndex> {
    match f
    case ConfirmedFunding => FundingEntries(status.confirmedFunding)
    case MempoolFunding => FundingEntries(status.mempoolFunding)
    case ConfirmedSpending => SpendingEntries(status.confirmedSpending)
    case MempoolSpending => SpendingEntries(status.mempoolSpending)
  }

  /** What the loops see before this field. */
  ghost function Earlier(status: Status, f: Field): seq<TxBlockIndex> {
    match f
    case ConfirmedFunding => []
    case MempoolFunding => FieldEntries(status, ConfirmedFunding)
    case ConfirmedSpending => FieldEntries(status, ConfirmedFunding) + FieldEntries(status, MempoolFunding)
    case MempoolSpending => FieldEntries(status, ConfirmedFunding) + FieldEntries(status, MempoolFunding) + FieldEntries(status, ConfirmedSpending)
  }

  /** What they see after it. */
  ghost function Later(status: Status, f: Field): seq<TxBlockIndex> {
    match f
    case ConfirmedFunding => FieldEntries(status, MempoolFunding) + FieldEntries(status, ConfirmedSpending) + FieldEntries(status, MempoolSpending)
    case MempoolFunding => FieldEntries(status, ConfirmedSpending) + FieldEntries(status, MempoolSpending)
    case ConfirmedSpending => FieldEntries(status, MempoolSpending)
    case MempoolSpending => []
  }

  lemma FieldsInOrder(status: Status, f: Field)
    ensures Entries(status) == Earlier(status, f) + FieldEntries(status, f) + Later(status, f)
  {
    FundingSplits(status.confirmedFunding, status.mempoolFunding);
    SpendingSplits(status.confirmedSpending, status.mempoolSpending);
    hide FundingEntries;
    hide SpendingEntries;
    FourParts(FundingEntries(status.confirmedFunding), FundingEntries(status.mempoolFunding),
              SpendingEntries(status.confirmedSpending), SpendingEntries(status.mempoolSpending));
  }

  lemma FundingSplits(a: seq<Txo>, b: seq<Txo>)
    ensures FundingEntries(a + b) == FundingEntries(a) + FundingEntries(b)
  {
  }

  lemma SpendingSplits(a: seq<SpendingInput>, b: seq<SpendingInput>)
    ensures SpendingEntries(a + b) == SpendingEntries(a) + SpendingEntries(b)
  {
  }

  lemma FourParts(a: seq<TxBlockIndex>, b: seq<TxBlockIndex>, c: seq<TxBlockIndex>, d: seq<TxBlockIndex>)
    ensures (a + b) + (c + d) == [] + a + (b + c + d)
    ensures (a + b) + (c + d) == a + b + (c + d)
    ensures (a + b) + (c + d) == (a + b) + c + d
    ensures (a + b) + (c + d) == (a + b + c) + d + []
  {
  }

  /** The answer of the query. */
  function Answer(status: Status): Option<TxBlockIndex> {
    match Picked(Entries(status))
    case None => None
    case Some(i) => Some(Entries(status)[i])
  }

  ghost predicate AllAbove(xs: seq<TxBlockIndex>, h: nat) {
    forall j :: 0 <= j < |xs| && xs[j].height > 0 ==> xs[j].height > h
  }

  ghost predicate AllAtLeast(xs: seq<TxBlockIndex>, h: nat) {
    forall j :: 0 <= j < |xs| && xs[j].height > 0 ==> xs[j].height >= h
  }

  ghost predicate NoZero(xs: seq<TxBlockIndex>) {
    forall j :: 0 <= j < |xs| ==> xs[j].height > 0
  }

  ghost predicate AllZero(xs: seq<TxBlockIndex>) {
    forall j :: 0 <= j < |xs| ==> xs[j].height == 0
  }

  lemma EarliestBetween(before: seq<TxBlockIndex>, x: TxBlockIndex, after: seq<TxBlockIndex>)
    requires x.height > 0 && AllAbove(before, x.height) && AllAtLeast(after, x.height)
    ensures Picked(before + [x] + after) == Some(|before|) <==> NoZero(after)
  {
    var xs, p := before + [x] + after, |before|;
    assert forall j :: 0 <= j < p ==> xs[j] == before[j];
    assert forall j :: p < j < |xs| ==> xs[j] == after[j - p - 1];
    assert forall j :: 0 <= j < |after| ==> after[j] == xs[p + 1 + j];
    OldestIsEarliest(xs, p);
  }

  /**
   * The earliest confirmed entry, whichever field it is in, is the answer if and only if no entry of height 0 comes
   * later in its field or in one of the later fields.
   */
  lemma EarliestOfField(status: Status, f: Field, i: nat)
    requires i < |FieldEntries(status, f)| && FieldEntries(status, f)[i].height > 0
    requires var x := FieldEntries(status, f)[i];
             && AllAbove(Earlier(status, f), x.height) && AllAbove(FieldEntries(status, f)[..i], x.height)
             && AllAtLeast(FieldEntries(status, f)[i + 1..], x.height) && AllAtLeast(Later(status, f), x.height)
    ensures |Earlier(status, f)| + i < |Entries(status)|
    ensures Entries(status)[|Earlier(status, f)| + i] == FieldEntries(status, f)[i]
    ensures Picked(Entries(status)) == Some(|Earlier(status, f)| + i) <==>
            NoZero(FieldEntries(status, f)[i + 1..]) && NoZero(Later(status, f))
  {
    FieldsInOrder(status, f);
    hide FieldEntries;
    hide Earlier;
    hide Later;
    hide Entries;
    hide Picked;
    var own, earlier, later := FieldEntries(status, f), Earlier(status, f), Later(status, f);
    var before, after := earlier + own[..i], own[i + 1..] + later;
    assert own == own[..i] + [own[i]] + own[i + 1..];
    assert Entries(status) == before + [own[i]] + after;
    Joint(earlier, own[..i], own[i].height);
    Joint(own[i + 1..], later, own[i].height);
    EarliestBetween(before, own[i], after);
  }

  lemma Joint(a: seq<TxBlockIndex>, b: seq<TxBlockIndex>, h: nat)
    ensures AllAbove(a + b, h) <==> AllAbove(a, h) && AllAbove(b, h)
    ensures AllAtLeast(a + b, h) <==> AllAtLeast(a, h) && AllAtLeast(b, h)
    ensures NoZero(a + b) <==> NoZero(a) && NoZero(b)
  {
    var c := a + b;
    assert forall j :: 0 <= j < |a| ==> c[j] == a[j];
    assert forall j :: 0 <= j < |b| ==> c[|a| + j] == b[j];
    assert forall j :: |a| <= j < |c| ==> c[j] == b[j - |a|];
  }

  lemma TrailingZeros(before: seq<TxBlockIndex>, zeros: seq<TxBlockIndex>)
    requires zeros != [] && AllZero(zeros)
    ensures var xs := before + zeros;
            && Picked(xs).Some? && xs[Picked(xs).value].height == 0
            && (before == [] || before[|before| - 1].height > 0 ==> Picked(xs) == Some(|before|))
  {
    var xs := before + zeros;
    assert xs[|xs| - 1] == zeros[|zeros| - 1];
    assert forall j :: |before| <= j < |xs| ==> xs[j] == zeros[j - |before|];
    PickedIsBest(xs, |xs|);
    if before == [] || before[|before| - 1].height > 0 {
      assert |before| > 0 ==> xs[|before| - 1] == before[|before| - 1];
      BestUnique(xs, |xs|, |before|, Picked(xs).value);
    }
  }

  /**
   * While an output of the script is being spent in the mempool, the answer has height 0, however old the script is:
   * it is the first mempool spender when the entry before it is confirmed.
   */
  lemma PendingSpendIsAnswer(status: Status)
    requires status.mempoolSpending != [] && forall i :: 0 <= i < |status.mempoolSpending| ==> status.mempoolSpending[i].height == 0
    ensures Answer(status).Some? && Answer(status).value.height == 0
    ensures var before := Earlier(status, MempoolSpending);
            before == [] || before[|before| - 1].height > 0 ==> Answer(status).value == TxBlockIndex(status.mempoolSpending[0].txid, 0)
  {
    FieldsInOrder(status, MempoolSpending);
    var before, zeros := Earlier(status, MempoolSpending), FieldEntries(status, MempoolSpending);
    assert Entries(status) == before + zeros;
    TrailingZeros(before, zeros);
  }

  /** With nothing in the mempool and everything confirmed, the answer has the least height of all. */
  lemma ConfirmedOnly(status: Status)
    requires status.mempoolFunding == [] && status.mempoolSpending == []
    requires NoZero(FundingEntries(status.confirmedFunding)) && NoZero(SpendingEntries(status.confirmedSpending))
    ensures Answer(status).None? <==> status.confirmedFunding == [] && status.confirmedSpending == []
    ensures Answer(status).Some? ==>
              && (forall o :: o in status.confirmedFunding ==> Answer(status).value.height <= o.height)
              && (forall x :: x in status.confirmedSpending ==> Answer(status).value.height <= x.height)
  {
    FieldsInOrder(status, ConfirmedFunding);
    var cf, cs := FundingEntries(status.confirmedFunding), SpendingEntries(status.confirmedSpending);
    assert Entries(status) == cf + cs;
    hide Entries;
    Joint(cf, cs, 0);
    hide NoZero;
    if cf + cs != [] {
      LeastOfAll(cf + cs);
      hide Picked;
      forall o | o in status.confirmedFunding
        ensures Answer(status).value.height <= o.height
      {
        var i :| 0 <= i < |status.confirmedFunding| && status.confirmedFunding[i] == o;
        assert (cf + cs)[i] == cf[i];
      }
      forall x | x in status.confirmedSpending
        ensures Answer(status).value.height <= x.height
      {
        var i :| 0 <= i < |status.confirmedSpending| && status.confirmedSpending[i] == x;
        assert (cf + cs)[|cf| + i] == cs[i];
      }
    }
  }

  lemma LeastOfAll(xs: seq<TxBlockIndex>)
    requires xs != [] && NoZero(xs)
    ensures forall j :: 0 <= j < |xs| ==> xs[Picked(xs).value].height <= xs[j].height
  {
    PickedIsBest(xs, 0);
    hide Picked;
  }

  /** Funded at height 5, funded again in the mempool and spent at height 7: the query answers with height 7. */
  lemma OldestForgets(a: Txo, b: Txo, c: SpendingInput)
    requires a.height == 5 && b.height == 0 && c.height == 7
    ensures Answer(Status([a], [c], [b], [])) == Some(TxBlockIndex(c.txid, 7))
  {
    var xs := Entries(Status([a], [c], [b], []));
    assert [a] + [b] == [a, b] && [c] + [] == [c];
    assert xs == [TxBlockIndex(a.txid, 5), TxBlockIndex(b.txid, 0), TxBlockIndex(c.txid, 7)];
    PickedIsBest(xs, 2);
  }
}
