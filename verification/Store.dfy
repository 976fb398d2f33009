/** The ordered key-value store: atomic batches and prefix scans. */
module Store {
  import opened ByteKeys
  import opened Rows

  type Contents = map<Bytes, Bytes>

  const NO_ROWS: Contents := map[]

  // ---------------------------------------------------------------- batches

  /** The puts of a batch in order; a later put to the same key wins. */
  function PutAll(m: Contents, rows: seq<Row>): Contents {
    if rows == [] then m
    else
      var n := |rows| - 1;
      PutAll(m, rows[..n])[rows[n].key := rows[n].value]
  }

  lemma {:induction false} PutAllConcat(m: Contents, a: seq<Row>, b: seq<Row>)
    ensures PutAll(m, a + b) == PutAll(PutAll(m, a), b)
  {
    if b == [] {
      assert a + b == a;
    } else {
      var n := |b| - 1;
      assert (a + b)[..|a| + n] == a + b[..n];
      PutAllConcat(m, a, b[..n]);
    }
  }

  ghost predicate Puts(rows: seq<Row>, k: Bytes) {
    exists i :: 0 <= i < |rows| && rows[i].key == k
  }

  lemma PutsPush(rows: seq<Row>, k: Bytes)
    requires rows != []
    ensures Puts(rows, k) <==> Puts(rows[..|rows| - 1], k) || rows[|rows| - 1].key == k
  {
    var n := |rows| - 1;
    assert forall i :: 0 <= i < n ==> rows[..n][i] == rows[i];
  }

  /** A key holds what it held before unless the batch puts it, and then one of the batch's values for it. */
  lemma {:induction false} PutAllAt(m: Contents, rows: seq<Row>, k: Bytes)
    ensures k in PutAll(m, rows) <==> k in m || Puts(rows, k)
    ensures Puts(rows, k) ==> exists i :: 0 <= i < |rows| && rows[i] == Row(k, PutAll(m, rows)[k])
    ensures !Puts(rows, k) && k in m ==> PutAll(m, rows)[k] == m[k]
  {
    if rows != [] {
      var n := |rows| - 1;
      PutAllAt(m, rows[..n], k);
      PutsPush(rows, k);
      if rows[n].key == k {
        assert rows[n] == Row(k, PutAll(m, rows)[k]);
      } else if Puts(rows[..n], k) {
        var i :| 0 <= i < n && rows[..n][i] == Row(k, PutAll(m, rows[..n])[k]);
        assert rows[i] == Row(k, PutAll(m, rows)[k]);
      }
    }
  }

  // ---------------------------------------------------------------- scans

  function RowsAt(m: Contents, ks: seq<Bytes>): (rows: seq<Row>)
    requires forall i :: 0 <= i < |ks| ==> ks[i] in m
    ensures |rows| == |ks|
  {
    seq(|ks|, i requires 0 <= i < |ks| => Row(ks[i], m[ks[i]]))
  }

  /** Exactly the rows whose key starts with `p`, in lexicographic order. */
  function PrefixRows(m: Contents, p: Bytes): seq<Row> {
    var ks := Ascending(set k | k in m && p <= k);
    assert forall i :: 0 <= i < |ks| ==> ks[i] in ks;
    RowsAt(m, ks)
  }

  /** Where a forward iterator positioned at `p` starts. */
  function From(m: Contents, p: Bytes): seq<Bytes> {
    Ascending(set k | k in m && Leq(p, k))
  }

  /** Stopping at the first key without the prefix loses nothing. */
  lemma ScanStops(m: Contents, p: Bytes, n: nat)
    requires n <= |From(m, p)|
    requires forall i :: 0 <= i < n ==> p <= From(m, p)[i]
    requires n < |From(m, p)| ==> !(p <= From(m, p)[n])
    ensures From(m, p)[..n] == Ascending(set k | k in m && p <= k)
  {
    var ks := From(m, p);
    var matching := set k | k in m && p <= k;
    forall k
      ensures k in ks[..n] <==> k in Ascending(matching)
    {
      if k in ks[..n] {
        var i :| 0 <= i < n && ks[i] == k;
        assert k in ks;
      }
      if k in matching {
        PrefixLeq(p, k);
        assert k in ks;
        var i :| 0 <= i < |ks| && ks[i] == k;
        if i < n {
          assert ks[..n][i] == k;
        } else {
          assert ks[n] in ks;
          ScanBeyond(ks, p, n, i);
        }
      }
    }
    AscendingUnique(ks[..n], Ascending(matching));
  }

  lemma ScanBeyond(ks: seq<Bytes>, p: Bytes, n: nat, i: nat)
    requires StrictlyAscending(ks) && n <= i < |ks| && Leq(p, ks[n]) && !(p <= ks[n])
    ensures !(p <= ks[i])
  {
    if p <= ks[i] && n < i {
      PrefixContiguous(p, ks[n], ks[i]);
    }
  }

  class DBStore {
    var db: Contents

    constructor ()
      ensures db == map[]
    {
      db := map[];
    }

    method Write(rows: seq<Row>)
      modifies this
      ensures db == PutAll(old(db), rows)
    {
      var batch := db;
      for i := 0 to |rows|
        invariant batch == PutAll(old(db), rows[..i]) && db == old(db)
      {
        assert rows[..i + 1][..i] == rows[..i];
        batch := batch[rows[i].key := rows[i].value];
      }
      assert rows[..|rows|] == rows;
      db := batch;
    }

    method Get(key: Bytes) returns (r: Option<Bytes>)
      ensures r == if key in db then Some(db[key]) else None
    {
      r := if key in db then Some(db[key]) else None;
    }

    method Scan(prefix: Bytes) returns (rows: seq<Row>)
      ensures rows == PrefixRows(db, prefix)
    {
      var ks := From(db, prefix);
      assert forall j :: 0 <= j < |ks| ==> ks[j] in ks;
      rows := [];
      var i := 0;
      while i < |ks| && prefix <= ks[i]
        invariant 0 <= i <= |ks|
        invariant forall j :: 0 <= j < i ==> prefix <= ks[j]
        invariant forall j :: 0 <= j < |ks| ==> ks[j] in db
        invariant rows == RowsAt(db, ks[..i])
      {
        rows := rows + [Row(ks[i], db[ks[i]])];
        i := i + 1;
      }
      ScanStops(db, prefix, i);
    }
  }
}
