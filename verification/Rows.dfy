/** The byte layout of index rows: fixed-width keys under a one-byte tag. */
module Rows {
  import opened ByteKeys
  import opened Chain

  datatype Row = Row(key: Bytes, value: Bytes)

  type u16 = x: int | 0 <= x < 0x1_0000

  const TAG_INPUT: byte := 0x49  // 'I'
  const TAG_OUTPUT: byte := 0x4f  // 'O'
  const TAG_TX: byte := 0x54  // 'T'
  const TAG_BLOCK: byte := 0x42  // 'B'
  const TAG_LAST: byte := 0x4c  // 'L'
  const TAG_COMPACTED: byte := 0x46  // 'F'

  /** `vout as u16` */
  function Truncated(vout: nat): u16 {
    vout % 0x1_0000
  }

  function EncodeU16(v: u16): (b: Bytes)
    ensures |b| == 2
  {
    [(v % 0x100) as byte, (v / 0x100) as byte]
  }

  function DecodeU16(b: Bytes): u16
    requires |b| == 2
  {
    b[0] as int + 0x100 * b[1] as int
  }

  lemma U16RoundTrip(v: u16)
    ensures DecodeU16(EncodeU16(v)) == v
  {
  }

  // ---------------------------------------------------------------- input rows

  datatype TxInRow = TxInRow(prevPrefix: HashPrefix, prevVout: u16, txidPrefix: HashPrefix)

  function InputFilter(txid: Hash, vout: nat): (b: Bytes)
    ensures |b| == 11
  {
    [TAG_INPUT] + PrefixOfHash(txid) + EncodeU16(Truncated(vout))
  }

  function InputKey(r: TxInRow): (b: Bytes)
    ensures |b| == 19
  {
    [TAG_INPUT] + r.prevPrefix + EncodeU16(r.prevVout) + r.txidPrefix
  }

  /** `TxInRow::from_row`: the tag is not looked at, a short key panics. */
  function DecodeInput(key: Bytes): Outcome<TxInRow> {
    if |key| < 19 then Panic else Ok(TxInRow(key[1..9], DecodeU16(key[9..11]), key[11..19]))
  }

  lemma InputRoundTrip(r: TxInRow)
    ensures DecodeInput(InputKey(r)) == Ok(r)
  {
    var k, head := InputKey(r), [TAG_INPUT] + r.prevPrefix + EncodeU16(r.prevVout);
    assert |head| == 11 && k == head + r.txidPrefix;
    assert k[1..9] == r.prevPrefix && k[9..11] == EncodeU16(r.prevVout);
    assert k[|head|..] == r.txidPrefix;
    assert k[11..19] == k[|head|..];
    U16RoundTrip(r.prevVout);
  }

  lemma InputFilterMatches(txid: Hash, vout: nat, r: TxInRow)
    ensures InputFilter(txid, vout) <= InputKey(r) <==> r.prevPrefix == PrefixOfHash(txid) && r.prevVout == Truncated(vout)
  {
    var f, k := InputFilter(txid, vout), InputKey(r);
    assert f[1..9] == PrefixOfHash(txid) && f[9..11] == EncodeU16(Truncated(vout));
    assert k[1..9] == r.prevPrefix && k[9..11] == EncodeU16(r.prevVout);
    U16RoundTrip(r.prevVout);
    U16RoundTrip(Truncated(vout));
    if f <= k {
      assert k[..11][1..9] == k[1..9] && k[..11][9..11] == k[9..11];
      assert f == k[..11];
    }
  }

  // ---------------------------------------------------------------- output rows

  datatype TxOutRow = TxOutRow(scriptPrefix: HashPrefix, txidPrefix: HashPrefix, vout: u16)

  function OutputFilter(scriptHash: Hash): (b: Bytes)
    ensures |b| == 9
  {
    [TAG_OUTPUT] + PrefixOfHash(scriptHash)
  }

  function OutputKey(r: TxOutRow): (b: Bytes)
    ensures |b| == 19
  {
    [TAG_OUTPUT] + r.scriptPrefix + r.txidPrefix + EncodeU16(r.vout)
  }

  function DecodeOutput(key: Bytes): Outcome<TxOutRow> {
    if |key| < 19 then Panic else Ok(TxOutRow(key[1..9], key[9..17], DecodeU16(key[17..19])))
  }

  lemma OutputRoundTrip(r: TxOutRow)
    ensures DecodeOutput(OutputKey(r)) == Ok(r)
  {
    var k, head := OutputKey(r), [TAG_OUTPUT] + r.scriptPrefix + r.txidPrefix;
    assert |head| == 17 && k == head + EncodeU16(r.vout);
    assert k[1..9] == r.scriptPrefix && k[9..17] == r.txidPrefix;
    assert k[|head|..] == EncodeU16(r.vout);
    assert k[17..19] == k[|head|..];
    U16RoundTrip(r.vout);
  }

  lemma OutputFilterMatches(scriptHash: Hash, r: TxOutRow)
    ensures OutputFilter(scriptHash) <= OutputKey(r) <==> r.scriptPrefix == PrefixOfHash(scriptHash)
  {
    var f, k := OutputFilter(scriptHash), OutputKey(r);
    assert f[1..9] == PrefixOfHash(scriptHash);
    assert k[1..9] == r.scriptPrefix && k[..9][1..9] == k[1..9];
    assert k == ([TAG_OUTPUT] + r.scriptPrefix) + (r.txidPrefix + EncodeU16(r.vout));
  }

  // ---------------------------------------------------------------- transaction rows

  datatype TxRow = TxRow(txid: Hash, blockHash: Hash)

  function TxFilterPrefix(p: HashPrefix): (b: Bytes)
    ensures |b| == 9
  {
    [TAG_TX] + p
  }

  function TxKey(txid: Hash): (b: Bytes)
    ensures |b| == 33
  {
    [TAG_TX] + txid
  }

  function EncodeTx(r: TxRow): Row {
    Row(TxKey(r.txid), r.blockHash)
  }

  function DecodeTx(row: Row): Outcome<TxRow> {
    if |row.key| < 33 || |row.value| < 32 then Panic else Ok(TxRow(row.key[1..33], row.value[..32]))
  }

  lemma TxRoundTrip(r: TxRow)
    ensures DecodeTx(EncodeTx(r)) == Ok(r)
  {
    assert TxKey(r.txid)[1..33] == r.txid;
    assert r.blockHash[..32] == r.blockHash;
  }

  lemma TxFilterMatches(p: HashPrefix, txid: Hash)
    ensures TxFilterPrefix(p) <= TxKey(txid) <==> PrefixOfHash(txid) == p
  {
    var f, k := TxFilterPrefix(p), TxKey(txid);
    assert f[1..9] == p;
    assert k[..9][1..9] == k[1..9] == txid[..8];
    assert k == ([TAG_TX] + txid[..8]) + txid[8..];
  }

  lemma TxKeyInjective(a: Hash, b: Hash)
    requires TxKey(a) == TxKey(b)
    ensures a == b
  {
    assert TxKey(a)[1..] == a && TxKey(b)[1..] == b;
  }

  // ---------------------------------------------------------------- block rows

  function EncodeHeader(h: Header): (b: Bytes)
    ensures |b| == 80
  {
    h.version + h.prev + h.trailer
  }

  function DecodeHeader(b: Bytes): Outcome<Header> {
    if |b| != 80 then Panic else Ok(Header(b[..4], b[4..36], b[36..80]))
  }

  lemma HeaderRoundTrip(h: Header)
    ensures DecodeHeader(EncodeHeader(h)) == Ok(h)
  {
    var b := EncodeHeader(h);
    assert b[..4] == h.version && b[4..36] == h.prev && b[36..80] == h.trailer;
  }

  function BlockKey(h: Hash): (b: Bytes)
    ensures |b| == 33
  {
    [TAG_BLOCK] + h
  }

  function DecodeBlockKey(key: Bytes): Outcome<Hash> {
    if |key| < 33 then Panic else Ok(key[1..33])
  }

  lemma BlockKeyRoundTrip(h: Hash)
    ensures DecodeBlockKey(BlockKey(h)) == Ok(h)
  {
    assert BlockKey(h)[1..33] == h;
  }

  lemma BlockKeyInjective(a: Hash, b: Hash)
    requires BlockKey(a) == BlockKey(b)
    ensures a == b
  {
    BlockKeyRoundTrip(a);
    BlockKeyRoundTrip(b);
  }

  function BlockRow(hash: Hash, header: Header): Row {
    Row(BlockKey(hash), EncodeHeader(header))
  }

  const LAST_KEY: Bytes := [TAG_LAST]
  const COMPACTED_KEY: Bytes := [TAG_COMPACTED]

  function LastRow(h: Hash): Row {
    Row(LAST_KEY, h)
  }

  // ---------------------------------------------------------------- the layout in bytes

  /** The code letters of the schema. */
  lemma Codes()
    ensures TAG_INPUT as int == 'I' as int && TAG_OUTPUT as int == 'O' as int && TAG_TX as int == 'T' as int
    ensures TAG_BLOCK as int == 'B' as int && TAG_LAST as int == 'L' as int && TAG_COMPACTED as int == 'F' as int
  {
  }

  /** Code, transaction prefix and little-endian index of the output spent, prefix of the spender. */
  lemma InputLayout(r: TxInRow)
    ensures InputKey(r)[0] == TAG_INPUT && InputKey(r)[1..9] == r.prevPrefix && InputKey(r)[11..] == r.txidPrefix
    ensures InputKey(r)[9] as int == r.prevVout % 256 && InputKey(r)[10] as int == r.prevVout / 256
  {
    var k, head := InputKey(r), [TAG_INPUT] + r.prevPrefix + EncodeU16(r.prevVout);
    assert |head| == 11 && k == head + r.txidPrefix;
    assert k[|head|..] == r.txidPrefix;
    assert k[9..11] == EncodeU16(r.prevVout);
    assert k[9] == k[9..11][0] && k[10] == k[9..11][1];
  }

  /** Code, script prefix, transaction prefix, little-endian output index. */
  lemma OutputLayout(r: TxOutRow)
    ensures OutputKey(r)[0] == TAG_OUTPUT && OutputKey(r)[1..9] == r.scriptPrefix && OutputKey(r)[9..17] == r.txidPrefix
    ensures OutputKey(r)[17] as int == r.vout % 256 && OutputKey(r)[18] as int == r.vout / 256
  {
    var k, head := OutputKey(r), [TAG_OUTPUT] + r.scriptPrefix + r.txidPrefix;
    assert |head| == 17 && k == head + EncodeU16(r.vout);
    assert k[|head|..] == EncodeU16(r.vout);
    assert k[17] == k[|head|..][0] && k[18] == k[|head|..][1];
  }

  /** Code and full hash; the value is the block hash, or the header as version, parent and the rest. */
  lemma HashLayout(txid: Hash, blockHash: Hash, header: Header)
    ensures EncodeTx(TxRow(txid, blockHash)) == Row([TAG_TX] + txid, blockHash)
    ensures BlockRow(blockHash, header).key == [TAG_BLOCK] + blockHash
    ensures var b := BlockRow(blockHash, header).value;
            |b| == 80 && b[..4] == header.version && b[4..36] == header.prev && b[36..] == header.trailer
  {
    HeaderRoundTrip(header);
    var b := EncodeHeader(header);
    assert b == (header.version + header.prev) + header.trailer;
    assert b[..4] == header.version && b[4..36] == header.prev && b[36..] == header.trailer;
  }

  // ---------------------------------------------------------------- kinds

  /** A key that starts with a filter carries the filter's tag, so a scan for one kind never meets another. */
  lemma FilterKeepsTag(filter: Bytes, key: Bytes)
    requires filter != [] && filter <= key
    ensures key[0] == filter[0]
  {
  }

  lemma KindsDisjoint(i: TxInRow, o: TxOutRow, x: Hash, h: Hash)
    ensures InputKey(i) != OutputKey(o) && InputKey(i) != TxKey(x) && InputKey(i) != BlockKey(h)
    ensures OutputKey(o) != TxKey(x) && OutputKey(o) != BlockKey(h) && TxKey(x) != BlockKey(h)
    ensures LAST_KEY != InputKey(i) && LAST_KEY != OutputKey(o) && LAST_KEY != TxKey(x) && LAST_KEY != BlockKey(h)
    ensures COMPACTED_KEY != InputKey(i) && COMPACTED_KEY != OutputKey(o) && COMPACTED_KEY != TxKey(x) && COMPACTED_KEY != BlockKey(h)
    ensures COMPACTED_KEY != LAST_KEY
  {
    assert InputKey(i)[0] == TAG_INPUT && OutputKey(o)[0] == TAG_OUTPUT;
    assert TxKey(x)[0] == TAG_TX && BlockKey(h)[0] == TAG_BLOCK;
  }
}
