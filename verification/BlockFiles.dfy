/** Parsing the node's block files: magic, size, body, with padding and body-less records to skip. */
module BlockFiles {
  import opened ByteKeys

  type u32 = x: int | 0 <= x < 0x1_0000_0000

  function EncodeU32(v: u32): (b: Bytes)
    ensures |b| == 4
  {
    [(v % 0x100) as byte, (v / 0x100 % 0x100) as byte, (v / 0x1_0000 % 0x100) as byte, (v / 0x100_0000) as byte]
  }

  function DecodeU32(b: Bytes): (v: u32)
    requires |b| == 4
    ensures v % 0x100 == b[0] as int
  {
    b[0] as int + 0x100 * b[1] as int + 0x1_0000 * b[2] as int + 0x100_0000 * b[3] as int
  }

  lemma U32RoundTrip(v: u32)
    ensures DecodeU32(EncodeU32(v)) == v
  {
    var a, b, c, d := v % 0x100, v / 0x100 % 0x100, v / 0x1_0000 % 0x100, v / 0x100_0000;
    assert v / 0x100 == b + 0x100 * (v / 0x1_0000);
    assert v / 0x1_0000 == c + 0x100 * d;
  }

  /** `u32::consensus_decode` at a cursor position: nothing when fewer than four bytes are left. */
  function U32At(blob: Bytes, pos: nat): Option<u32> {
    if pos + 4 <= |blob| then Some(DecodeU32(blob[pos..pos + 4])) else None
  }

  /** `parse_blocks` from a cursor position; a body reaching past the end of the file panics on the slice. */
  function ParseFrom<B>(codec: Bytes -> Option<B>, magic: u32, blob: Bytes, pos: nat): Outcome<seq<B>>
    decreases |blob| - pos
  {
    if pos >= |blob| then Ok([])
    else if U32At(blob, pos).None? then Ok([])
    else if U32At(blob, pos).value != magic then ParseFrom(codec, magic, blob, pos + 1)
    else if U32At(blob, pos + 4).None? then Err
    else
      var start := pos + 8;
      var end := start + U32At(blob, pos + 4).value;
      if U32At(blob, start).None? then Ok([])
      else if U32At(blob, start).value == magic then ParseFrom(codec, magic, blob, start)
      else if end > |blob| then Panic
      else
        match codec(blob[start..end])
        case None => Err
        case Some(block) =>
          var rest := ParseFrom(codec, magic, blob, end);
          if rest.Ok? then Ok([block] + rest.value) else rest
  }

  /** The outcome of a parse that has collected `blocks` so far. */
  function Collected<B>(blocks: seq<B>, rest: Outcome<seq<B>>): Outcome<seq<B>> {
    if rest.Ok? then Ok(blocks + rest.value) else rest
  }

  method ParseBlocks<B>(codec: Bytes -> Option<B>, magic: u32, blob: Bytes) returns (r: Outcome<seq<B>>)
    ensures r == ParseFrom(codec, magic, blob, 0)
  {
    var blocks: seq<B> := [];
    var pos := 0;
    CollectedNone(ParseFrom(codec, magic, blob, 0));
    while pos < |blob|
      invariant ParseFrom(codec, magic, blob, 0) == Collected(blocks, ParseFrom(codec, magic, blob, pos))
      decreases |blob| - pos
    {
      var value := U32At(blob, pos);
      if value.None? {
        break;
      }
      if value.value != magic {
        pos := pos + 1;
        continue;
      }
      var size := U32At(blob, pos + 4);
      if size.None? {
        return Err;
      }
      var start := pos + 8;
      var end := start + size.value;
      var peek := U32At(blob, start);
      if peek.None? {
        break;
      }
      if peek.value == magic {
        pos := start;
        continue;
      }
      if end > |blob| {
        return Panic;
      }
      var block := codec(blob[start..end]);
      if block.None? {
        return Err;
      }
      CollectedPush(blocks, block.value, ParseFrom(codec, magic, blob, end));
      blocks := blocks + [block.value];
      pos := end;
    }
    assert blocks + [] == blocks;
    r := Ok(blocks);
  }

  lemma CollectedNone<B>(rest: Outcome<seq<B>>)
    ensures Collected([], rest) == rest
  {
    if rest.Ok? {
      assert [] + rest.value == rest.value;
    }
  }

  lemma CollectedPush<B>(blocks: seq<B>, b: B, rest: Outcome<seq<B>>)
    ensures Collected(blocks, Collected([b], rest)) == Collected(blocks + [b], rest)
  {
    if rest.Ok? {
      assert blocks + ([b] + rest.value) == blocks + [b] + rest.value;
    }
  }

  // ---------------------------------------------------------------- the layout of a block file

  /** Zero bytes; a record with its body; or a record whose body was never written. */
  datatype Piece = Padding(count: nat) | Full(body: Bytes) | Bare(size: u32)

  function Render(magic: u32, p: Piece): Bytes
    requires p.Full? ==> |p.body| < 0x1_0000_0000
  {
    match p
    case Padding(n) => Zeros(n)
    case Full(body) => EncodeU32(magic) + EncodeU32(|body|) + body
    case Bare(size) => EncodeU32(magic) + EncodeU32(size)
  }

  predicate Renderable(ps: seq<Piece>) {
    forall i :: 0 <= i < |ps| && ps[i].Full? ==> |ps[i].body| < 0x1_0000_0000
  }

  function Layout(magic: u32, ps: seq<Piece>): Bytes
    requires Renderable(ps)
  {
    if ps == [] then [] else Render(magic, ps[0]) + Layout(magic, ps[1..])
  }

  /** Bodies are blocks that do not start with the magic; a body-less record is followed by a record or ends the file. */
  ghost predicate WellFormed<B>(codec: Bytes -> Option<B>, magic: u32, ps: seq<Piece>) {
    && Renderable(ps)
    && (forall i :: 0 <= i < |ps| && ps[i].Full? ==>
          |ps[i].body| >= 4 && DecodeU32(ps[i].body[..4]) != magic && codec(ps[i].body).Some?)
    && (forall i :: 0 <= i < |ps| && ps[i].Bare? ==> FollowedByRecord(ps, i))
  }

  predicate FollowedByRecord(ps: seq<Piece>, i: nat)
    requires i < |ps|
  {
    i + 1 == |ps| || !ps[i + 1].Padding?
  }

  ghost function BlocksOf<B>(codec: Bytes -> Option<B>, ps: seq<Piece>): seq<B>
    requires forall i :: 0 <= i < |ps| && ps[i].Full? ==> codec(ps[i].body).Some?
  {
    if ps == [] then []
    else (if ps[0].Full? then [codec(ps[0].body).value] else []) + BlocksOf(codec, ps[1..])
  }

  lemma TailWellFormed<B>(codec: Bytes -> Option<B>, magic: u32, ps: seq<Piece>)
    requires WellFormed(codec, magic, ps) && ps != []
    ensures WellFormed(codec, magic, ps[1..])
  {
    forall i | 0 <= i < |ps[1..]| && ps[1..][i].Bare?
      ensures FollowedByRecord(ps[1..], i)
    {
      assert FollowedByRecord(ps, i + 1);
    }
  }

  // ---------------------------------------------------------------- parsing undoes the layout

  /** Parsing from a position only looks at what follows it. */
  lemma {:induction false} ParseShift<B>(codec: Bytes -> Option<B>, magic: u32, blob: Bytes, base: nat, pos: nat)
    requires base <= |blob|
    ensures ParseFrom(codec, magic, blob, base + pos) == ParseFrom(codec, magic, blob[base..], pos)
    decreases |blob| - pos
  {
    hide DecodeU32;
    var t := blob[base..];
    if pos < |t| && U32At(t, pos).Some? {
      U32Shift(blob, base, pos);
      U32Shift(blob, base, pos + 4);
      U32Shift(blob, base, pos + 8);
      if U32At(t, pos).value != magic {
        ParseShift(codec, magic, blob, base, pos + 1);
      } else if U32At(t, pos + 4).Some? && U32At(t, pos + 8).Some? {
        var end := pos + 8 + U32At(t, pos + 4).value;
        if U32At(t, pos + 8).value == magic {
          ParseShift(codec, magic, blob, base, pos + 8);
        } else if end <= |t| {
          SliceShift(blob, base, pos + 8, end);
          ParseShift(codec, magic, blob, base, end);
        }
      }
    }
  }

  lemma SliceShift(blob: Bytes, base: nat, lo: nat, hi: nat)
    requires base <= |blob| && lo <= hi <= |blob[base..]|
    ensures blob[base + lo..base + hi] == blob[base..][lo..hi]
  {
    forall i | 0 <= i < hi - lo
      ensures blob[base + lo..base + hi][i] == blob[base..][lo..hi][i]
    {
    }
  }

  lemma U32Shift(blob: Bytes, base: nat, pos: nat)
    requires base <= |blob|
    ensures U32At(blob, base + pos) == U32At(blob[base..], pos)
  {
    if base + pos + 4 <= |blob| {
      assert blob[base + pos..base + pos + 4] == blob[base..][pos..pos + 4];
    }
  }

  lemma ParseSuffix<B>(codec: Bytes -> Option<B>, magic: u32, head: Bytes, tail: Bytes)
    ensures ParseFrom(codec, magic, head + tail, |head|) == ParseFrom(codec, magic, tail, 0)
  {
    assert (head + tail)[|head|..] == tail;
    ParseShift(codec, magic, head + tail, |head|, 0);
  }

  /** A file too short for a record holds no block. */
  lemma {:induction false} ShortHasNoBlocks<B>(codec: Bytes -> Option<B>, magic: u32, ps: seq<Piece>)
    requires WellFormed(codec, magic, ps) && |Layout(magic, ps)| < 8
    ensures BlocksOf(codec, ps) == []
  {
    if ps != [] {
      TailWellFormed(codec, magic, ps);
      ShortHasNoBlocks(codec, magic, ps[1..]);
    }
  }

  lemma SkipZero<B>(codec: Bytes -> Option<B>, magic: u32, tail: Bytes)
    requires magic % 0x100 != 0 && |tail| >= 3
    ensures ParseFrom(codec, magic, [0] + tail, 0) == ParseFrom(codec, magic, tail, 0)
  {
    var blob := [0] + tail;
    assert blob[0..4][0] == 0;
    ParseSuffix(codec, magic, [0], tail);
  }

  /** Zero bytes are skipped one at a time, also where they run into the next record. */
  lemma {:induction false} ParsePadding<B>(codec: Bytes -> Option<B>, magic: u32, n: nat, tail: Bytes, blocks: seq<B>)
    requires magic % 0x100 != 0
    requires ParseFrom(codec, magic, tail, 0) == Ok(blocks) && (|tail| < 8 ==> blocks == [])
    ensures ParseFrom(codec, magic, Zeros(n) + tail, 0) == Ok(blocks)
  {
    if n == 0 {
      assert Zeros(n) + tail == tail;
    } else {
      var rest := Zeros(n - 1) + tail;
      ParsePadding(codec, magic, n - 1, tail, blocks);
      assert Zeros(n) + tail == [0] + rest;
      if |rest| >= 3 {
        SkipZero(codec, magic, rest);
      }
    }
  }

  /** The first record of `blob` has this size, and `tail` follows its header. */
  lemma RecordHeader(magic: u32, size: u32, tail: Bytes, blob: Bytes)
    requires blob == EncodeU32(magic) + EncodeU32(size) + tail
    ensures U32At(blob, 0) == Some(magic) && U32At(blob, 4) == Some(size)
    ensures U32At(blob, 8) == U32At(tail, 0) && blob[8..] == tail
  {
    U32RoundTrip(magic);
    U32RoundTrip(size);
    assert blob[0..4] == EncodeU32(magic) && blob[4..8] == EncodeU32(size) && blob[8..] == tail;
    U32Shift(blob, 8, 0);
  }

  lemma ParseFull<B>(codec: Bytes -> Option<B>, magic: u32, body: Bytes, tail: Bytes)
    requires 4 <= |body| < 0x1_0000_0000 && DecodeU32(body[..4]) != magic && codec(body).Some?
    ensures ParseFrom(codec, magic, Render(magic, Full(body)) + tail, 0)
         == Collected([codec(body).value], ParseFrom(codec, magic, tail, 0))
  {
    var blob := Render(magic, Full(body)) + tail;
    assert blob == EncodeU32(magic) + EncodeU32(|body|) + (body + tail);
    RecordHeader(magic, |body|, body + tail, blob);
    assert (body + tail)[0..4] == body[..4];
    assert blob[8..8 + |body|] == body;
    ParseSuffix(codec, magic, Render(magic, Full(body)), tail);
  }

  lemma ParseBare<B>(codec: Bytes -> Option<B>, magic: u32, size: u32, tail: Bytes)
    requires tail == [] || U32At(tail, 0) == Some(magic)
    ensures ParseFrom(codec, magic, Render(magic, Bare(size)) + tail, 0)
         == if tail == [] then Ok([]) else ParseFrom(codec, magic, tail, 0)
  {
    var blob := Render(magic, Bare(size)) + tail;
    RecordHeader(magic, size, tail, blob);
    ParseSuffix(codec, magic, Render(magic, Bare(size)), tail);
  }

  lemma StartsWithMagic(magic: u32, ps: seq<Piece>)
    requires Renderable(ps) && ps != [] && !ps[0].Padding?
    ensures Layout(magic, ps) != [] && U32At(Layout(magic, ps), 0) == Some(magic)
  {
    var blob := Layout(magic, ps);
    U32RoundTrip(magic);
    assert blob[0..4] == EncodeU32(magic);
  }

  lemma RenderPadding(magic: u32, n: nat)
    ensures Render(magic, Padding(n)) == Zeros(n)
  {
  }

  /** Parsing a block file returns exactly its full blocks, in order. */
  lemma {:induction false} ParseUndoesLayout<B>(codec: Bytes -> Option<B>, magic: u32, ps: seq<Piece>)
    requires WellFormed(codec, magic, ps) && magic % 0x100 != 0
    ensures ParseFrom(codec, magic, Layout(magic, ps), 0) == Ok(BlocksOf(codec, ps))
  {
    if ps == [] {
      assert ParseFrom(codec, magic, Layout(magic, ps), 0) == Ok([]);
    } else {
      hide ParseFrom;
      hide Render;
      var rest := ps[1..];
      TailWellFormed(codec, magic, ps);
      ParseUndoesLayout(codec, magic, rest);
      var after := BlocksOf(codec, rest);
      assert Layout(magic, ps) == Render(magic, ps[0]) + Layout(magic, rest);
      assert BlocksOf(codec, ps) == if ps[0].Full? then [codec(ps[0].body).value] + after else after;
      match ps[0]
      case Padding(n) =>
        assert Render(magic, ps[0]) == Zeros(n) by {
          RenderPadding(magic, n);
        }
        if |Layout(magic, rest)| < 8 {
          ShortHasNoBlocks(codec, magic, rest);
        }
        ParsePadding(codec, magic, n, Layout(magic, rest), BlocksOf(codec, rest));
      case Full(body) =>
        ParseFull(codec, magic, body, Layout(magic, rest));
      case Bare(size) =>
        assert FollowedByRecord(ps, 0);
        if rest != [] {
          StartsWithMagic(magic, rest);
        }
        ParseBare(codec, magic, size, Layout(magic, rest));
    }
  }

  // ---------------------------------------------------------------- a file cut off in its last body

  lemma {:induction false} ZerosSkipped<B>(codec: Bytes -> Option<B>, magic: u32, n: nat, tail: Bytes)
    requires magic % 0x100 != 0 && |tail| >= 3
    ensures ParseFrom(codec, magic, Zeros(n) + tail, 0) == ParseFrom(codec, magic, tail, 0)
  {
    if n == 0 {
      assert Zeros(n) + tail == tail;
    } else {
      var rest := Zeros(n - 1) + tail;
      ZerosSkipped(codec, magic, n - 1, tail);
      assert Zeros(n) + tail == [0] + rest;
      SkipZero(codec, magic, rest);
    }
  }

  /** The block that one piece contributes. */
  ghost function BlockOf<B>(codec: Bytes -> Option<B>, p: Piece): seq<B>
    requires p.Full? ==> codec(p.body).Some?
  {
    if p.Full? then [codec(p.body).value] else []
  }

  ghost predicate GoodPiece<B>(codec: Bytes -> Option<B>, magic: u32, p: Piece) {
    p.Full? ==> 4 <= |p.body| < 0x1_0000_0000 && DecodeU32(p.body[..4]) != magic && codec(p.body).Some?
  }

  /** One piece and then more of the file. */
  lemma ParsePiece<B>(codec: Bytes -> Option<B>, magic: u32, p: Piece, tail: Bytes)
    requires GoodPiece(codec, magic, p) && magic % 0x100 != 0 && |tail| >= 4
    requires p.Bare? ==> U32At(tail, 0) == Some(magic)
    ensures ParseFrom(codec, magic, Render(magic, p) + tail, 0)
         == Collected(BlockOf(codec, p), ParseFrom(codec, magic, tail, 0))
  {
    hide ParseFrom;
    CollectedNone(ParseFrom(codec, magic, tail, 0));
    match p
    case Padding(n) => ZerosSkipped(codec, magic, n, tail);
    case Full(body) => ParseFull(codec, magic, body, tail);
    case Bare(size) => ParseBare(codec, magic, size, tail);
  }

  lemma PieceThen<B>(codec: Bytes -> Option<B>, magic: u32, p: Piece, tail: Bytes, blocks: seq<B>, rest: Outcome<seq<B>>)
    requires GoodPiece(codec, magic, p) && magic % 0x100 != 0 && |tail| >= 4
    requires p.Bare? ==> U32At(tail, 0) == Some(magic)
    requires ParseFrom(codec, magic, tail, 0) == Collected(blocks, rest)
    ensures ParseFrom(codec, magic, Render(magic, p) + tail, 0) == Collected(BlockOf(codec, p) + blocks, rest)
  {
    hide ParseFrom;
    ParsePiece(codec, magic, p, tail);
    FrontBlocks(BlockOf(codec, p), blocks, rest);
  }

  lemma FirstPiece<B>(codec: Bytes -> Option<B>, magic: u32, ps: seq<Piece>)
    requires WellFormed(codec, magic, ps) && ps != []
    ensures GoodPiece(codec, magic, ps[0]) && WellFormed(codec, magic, ps[1..])
    ensures BlocksOf(codec, ps) == BlockOf(codec, ps[0]) + BlocksOf(codec, ps[1..])
    ensures ps[0].Bare? ==> ps[1..] == [] || !ps[1..][0].Padding?
  {
    hide DecodeU32;
    TailWellFormed(codec, magic, ps);
    if ps[0].Bare? {
      assert FollowedByRecord(ps, 0);
    }
  }

  lemma FirstRendered(magic: u32, ps: seq<Piece>, tail: Bytes)
    requires Renderable(ps) && ps != [] && U32At(tail, 0) == Some(magic)
    requires ps[0].Bare? ==> ps[1..] == [] || !ps[1..][0].Padding?
    ensures Layout(magic, ps) + tail == Render(magic, ps[0]) + (Layout(magic, ps[1..]) + tail)
    ensures |Layout(magic, ps[1..]) + tail| >= 4
    ensures ps[0].Bare? ==> U32At(Layout(magic, ps[1..]) + tail, 0) == Some(magic)
  {
    hide DecodeU32;
    hide Render;
    if ps[0].Bare? {
      NextIsRecord(magic, ps[1..], tail);
    }
    assert Layout(magic, ps) == Render(magic, ps[0]) + Layout(magic, ps[1..]);
  }

  /** A file that goes on with another record yields the blocks before it, then whatever that record yields. */
  lemma {:induction false} ParseContinues<B>(codec: Bytes -> Option<B>, magic: u32, ps: seq<Piece>, tail: Bytes)
    requires WellFormed(codec, magic, ps) && magic % 0x100 != 0 && U32At(tail, 0) == Some(magic)
    ensures ParseFrom(codec, magic, Layout(magic, ps) + tail, 0)
         == Collected(BlocksOf(codec, ps), ParseFrom(codec, magic, tail, 0))
  {
    hide ParseFrom;
    hide U32At;
    if ps == [] {
      assert Layout(magic, ps) + tail == tail;
      CollectedNone(ParseFrom(codec, magic, tail, 0));
    } else {
      FirstPiece(codec, magic, ps);
      FirstRendered(magic, ps, tail);
      hide *;
      ParseContinues(codec, magic, ps[1..], tail);
      PieceThen(codec, magic, ps[0], Layout(magic, ps[1..]) + tail, BlocksOf(codec, ps[1..]), ParseFrom(codec, magic, tail, 0));
    }
  }

  lemma FrontBlocks<B>(front: seq<B>, blocks: seq<B>, rest: Outcome<seq<B>>)
    ensures Collected(front, Collected(blocks, rest)) == Collected(front + blocks, rest)
  {
    if rest.Ok? {
      assert front + (blocks + rest.value) == front + blocks + rest.value;
    }
  }

  lemma NextIsRecord(magic: u32, ps: seq<Piece>, tail: Bytes)
    requires Renderable(ps) && (ps == [] || !ps[0].Padding?) && U32At(tail, 0) == Some(magic)
    ensures U32At(Layout(magic, ps) + tail, 0) == Some(magic)
  {
    var blob := Layout(magic, ps) + tail;
    if ps == [] {
      assert blob == tail;
    } else {
      StartsWithMagic(magic, ps);
      assert blob[0..4] == Layout(magic, ps)[0..4];
    }
  }

  /**
   * A file whose last body stops after `cut` bytes panics exactly when the four bytes of the version are
   * there; with fewer the record is dropped and the blocks before it are returned.
   */
  lemma CutBodyPanics<B>(codec: Bytes -> Option<B>, magic: u32, ps: seq<Piece>, body: Bytes, cut: nat)
    requires WellFormed(codec, magic, ps) && magic % 0x100 != 0
    requires 4 <= |body| < 0x1_0000_0000 && DecodeU32(body[..4]) != magic && cut < |body|
    ensures ParseFrom(codec, magic, Layout(magic, ps) + (EncodeU32(magic) + EncodeU32(|body|) + body[..cut]), 0)
         == if cut < 4 then Ok(BlocksOf(codec, ps)) else Panic
  {
    var tail := EncodeU32(magic) + EncodeU32(|body|) + body[..cut];
    RecordHeader(magic, |body|, body[..cut], tail);
    if cut >= 4 {
      assert body[..cut][0..4] == body[..4];
    }
    assert ParseFrom(codec, magic, tail, 0) == if cut < 4 then Ok([]) else Panic;
    ParseContinues(codec, magic, ps, tail);
    assert BlocksOf(codec, ps) + [] == BlocksOf(codec, ps);
  }

  // ---------------------------------------------------------------- the outcome on every input

  /** At `q` stands a record whose body is in the file, begins, and decodes. */
  ghost predicate BlockAt<B>(codec: Bytes -> Option<B>, magic: u32, blob: Bytes, q: nat) {
    BodyAt(magic, blob, q) && q + 8 + SizeAt(blob, q) <= |blob| && codec(blob[q + 8..q + 8 + SizeAt(blob, q)]).Some?
  }

  /** At `q` stands the magic and a size, and at least four bytes follow that are not the magic again. */
  ghost predicate BodyAt(magic: u32, blob: Bytes, q: nat) {
    && U32At(blob, q) == Some(magic) && U32At(blob, q + 4).Some?
    && U32At(blob, q + 8).Some? && U32At(blob, q + 8) != Some(magic)
  }

  /** The size field of the record at `q`. */
  ghost function SizeAt(blob: Bytes, q: nat): nat {
    if U32At(blob, q + 4).Some? then U32At(blob, q + 4).value else 0
  }

  /** The cursor moves on from `q` to `next`: over a byte that starts no record, a body-less header, or a block. */
  ghost predicate Moves<B>(codec: Bytes -> Option<B>, magic: u32, blob: Bytes, q: nat, next: nat) {
    || (U32At(blob, q).Some? && U32At(blob, q) != Some(magic) && next == q + 1)
    || (U32At(blob, q) == Some(magic) && U32At(blob, q + 4).Some? && U32At(blob, q + 8) == Some(magic) && next == q + 8)
    || (BlockAt(codec, magic, blob, q) && next == q + 8 + SizeAt(blob, q))
  }

  /** The cursor stops at `q` because fewer than four bytes are left, or only a header and fewer than four bytes. */
  ghost predicate EndAt(magic: u32, blob: Bytes, q: nat) {
    || U32At(blob, q).None?
    || (U32At(blob, q) == Some(magic) && U32At(blob, q + 4).Some? && U32At(blob, q + 8).None?)
  }

  /** At `q` the size field is cut off, or a body that lies inside the file does not decode. */
  ghost predicate BadAt<B>(codec: Bytes -> Option<B>, magic: u32, blob: Bytes, q: nat) {
    || (U32At(blob, q) == Some(magic) && U32At(blob, q + 4).None?)
    || (BodyAt(magic, blob, q) && q + 8 + SizeAt(blob, q) <= |blob| && codec(blob[q + 8..q + 8 + SizeAt(blob, q)]).None?)
  }

  /** At `q` stands a record whose body has begun and reaches past the end of the file. */
  ghost predicate CutAt(magic: u32, blob: Bytes, q: nat) {
    BodyAt(magic, blob, q) && q + 8 + SizeAt(blob, q) > |blob|
  }

  /** Positions the cursor takes one after another, starting at the beginning of the file. */
  ghost predicate Walk<B>(codec: Bytes -> Option<B>, magic: u32, blob: Bytes, qs: seq<nat>) {
    qs != [] && qs[0] == 0 && forall i :: 0 < i < |qs| ==> MovesAt(codec, magic, blob, qs, i)
  }

  ghost predicate MovesAt<B>(codec: Bytes -> Option<B>, magic: u32, blob: Bytes, qs: seq<nat>, i: nat)
    requires 0 < i < |qs|
  {
    Moves(codec, magic, blob, qs[i - 1], qs[i])
  }

  /** The block that stands at `q`, if there is one. */
  ghost function BlockHere<B>(codec: Bytes -> Option<B>, magic: u32, blob: Bytes, q: nat): seq<B> {
    if BlockAt(codec, magic, blob, q) then [codec(blob[q + 8..q + 8 + SizeAt(blob, q)]).value] else []
  }

  /** The blocks a walk has passed: those at all its positions but the last. */
  ghost function Passed<B>(codec: Bytes -> Option<B>, magic: u32, blob: Bytes, qs: seq<nat>): seq<B> {
    if |qs| <= 1 then [] else Passed(codec, magic, blob, qs[..|qs| - 1]) + BlockHere(codec, magic, blob, qs[|qs| - 2])
  }

  lemma MoveParses<B>(codec: Bytes -> Option<B>, magic: u32, blob: Bytes, q: nat, next: nat)
    requires Moves(codec, magic, blob, q, next)
    ensures next > q
    ensures ParseFrom(codec, magic, blob, q) == Collected(BlockHere(codec, magic, blob, q), ParseFrom(codec, magic, blob, next))
  {
    hide DecodeU32;
    CollectedNone(ParseFrom(codec, magic, blob, next));
  }

  /** Where the cursor stops decides the outcome. */
  lemma StopParses<B>(codec: Bytes -> Option<B>, magic: u32, blob: Bytes, q: nat)
    ensures EndAt(magic, blob, q) ==> ParseFrom(codec, magic, blob, q) == Ok([])
    ensures BadAt(codec, magic, blob, q) ==> ParseFrom(codec, magic, blob, q) == Err
    ensures CutAt(magic, blob, q) ==> ParseFrom(codec, magic, blob, q) == Panic
  {
    hide DecodeU32;
  }

  /** Parsing a file is walking it: the blocks passed come first, then whatever the last position yields. */
  lemma {:induction false} WalkParses<B>(codec: Bytes -> Option<B>, magic: u32, blob: Bytes, qs: seq<nat>)
    requires Walk(codec, magic, blob, qs)
    ensures ParseFrom(codec, magic, blob, 0) == Collected(Passed(codec, magic, blob, qs), ParseFrom(codec, magic, blob, qs[|qs| - 1]))
  {
    hide ParseFrom;
    hide Moves;
    hide BlockHere;
    var n := |qs| - 1;
    if n == 0 {
      CollectedNone(ParseFrom(codec, magic, blob, 0));
    } else {
      ShorterWalk(codec, magic, blob, qs);
      WalkParses(codec, magic, blob, qs[..n]);
      assert MovesAt(codec, magic, blob, qs, n);
      MoveParses(codec, magic, blob, qs[n - 1], qs[n]);
      FrontBlocks(Passed(codec, magic, blob, qs[..n]), BlockHere(codec, magic, blob, qs[n - 1]), ParseFrom(codec, magic, blob, qs[n]));
    }
  }

  lemma ShorterWalk<B>(codec: Bytes -> Option<B>, magic: u32, blob: Bytes, qs: seq<nat>)
    requires Walk(codec, magic, blob, qs) && |qs| > 1
    ensures Walk(codec, magic, blob, qs[..|qs| - 1])
  {
    hide Moves;
    var rest := qs[..|qs| - 1];
    forall i | 0 < i < |rest|
      ensures MovesAt(codec, magic, blob, rest, i)
    {
      assert MovesAt(codec, magic, blob, qs, i);
    }
  }

  lemma LongerWalk<B>(codec: Bytes -> Option<B>, magic: u32, blob: Bytes, qs: seq<nat>, next: nat)
    requires Walk(codec, magic, blob, qs) && Moves(codec, magic, blob, qs[|qs| - 1], next)
    ensures Walk(codec, magic, blob, qs + [next])
  {
    hide Moves;
    var more := qs + [next];
    forall i | 0 < i < |more|
      ensures MovesAt(codec, magic, blob, more, i)
    {
      if i < |qs| {
        assert MovesAt(codec, magic, blob, qs, i);
      }
    }
  }

  /** At every position the cursor moves on or stops in one of the three ways. */
  lemma MovesOrStops<B>(codec: Bytes -> Option<B>, magic: u32, blob: Bytes, q: nat) returns (next: nat)
    ensures Moves(codec, magic, blob, q, next) || EndAt(magic, blob, q) || BadAt(codec, magic, blob, q) || CutAt(magic, blob, q)
    ensures Moves(codec, magic, blob, q, next) ==> q < |blob|
  {
    hide DecodeU32;
    next := if U32At(blob, q) != Some(magic) then q + 1
            else if U32At(blob, q + 8) == Some(magic) then q + 8
            else q + 8 + SizeAt(blob, q);
  }

  /** Every walk can be carried on until it stops. */
  lemma {:induction false} WalkStops<B>(codec: Bytes -> Option<B>, magic: u32, blob: Bytes, begun: seq<nat>) returns (qs: seq<nat>)
    requires Walk(codec, magic, blob, begun)
    ensures Walk(codec, magic, blob, qs)
    ensures var q := qs[|qs| - 1]; EndAt(magic, blob, q) || BadAt(codec, magic, blob, q) || CutAt(magic, blob, q)
    decreases |blob| - begun[|begun| - 1]
  {
    hide Moves;
    hide EndAt;
    hide BadAt;
    hide CutAt;
    hide Walk;
    qs := begun;
    var next := MovesOrStops(codec, magic, blob, WalkEnd(codec, magic, blob, begun));
    if Moves(codec, magic, blob, WalkEnd(codec, magic, blob, begun), next) {
      MoveParses(codec, magic, blob, WalkEnd(codec, magic, blob, begun), next);
      LongerWalk(codec, magic, blob, begun, next);
      assert (begun + [next])[|begun|] == next;
      qs := WalkStops(codec, magic, blob, begun + [next]);
    }
  }

  ghost function WalkEnd<B>(codec: Bytes -> Option<B>, magic: u32, blob: Bytes, qs: seq<nat>): nat
    requires Walk(codec, magic, blob, qs)
  {
    qs[|qs| - 1]
  }

  /** A walk from the beginning that comes to its end with these blocks; to a bad record; to a cut one. */
  ghost predicate Ends<B>(codec: Bytes -> Option<B>, magic: u32, blob: Bytes, qs: seq<nat>, blocks: seq<B>) {
    Walk(codec, magic, blob, qs) && EndAt(magic, blob, qs[|qs| - 1]) && Passed(codec, magic, blob, qs) == blocks
  }

  ghost predicate ReachesBad<B>(codec: Bytes -> Option<B>, magic: u32, blob: Bytes, qs: seq<nat>) {
    Walk(codec, magic, blob, qs) && BadAt(codec, magic, blob, qs[|qs| - 1])
  }

  ghost predicate ReachesCut<B>(codec: Bytes -> Option<B>, magic: u32, blob: Bytes, qs: seq<nat>) {
    Walk(codec, magic, blob, qs) && CutAt(magic, blob, qs[|qs| - 1])
  }

  lemma WalkDecides<B>(codec: Bytes -> Option<B>, magic: u32, blob: Bytes, qs: seq<nat>)
    ensures forall blocks :: Ends(codec, magic, blob, qs, blocks) ==> ParseFrom(codec, magic, blob, 0) == Ok(blocks)
    ensures ReachesBad(codec, magic, blob, qs) ==> ParseFrom(codec, magic, blob, 0) == Err
    ensures ReachesCut(codec, magic, blob, qs) ==> ParseFrom(codec, magic, blob, 0) == Panic
  {
    hide ParseFrom;
    hide Walk;
    hide EndAt;
    hide BadAt;
    hide CutAt;
    if Walk(codec, magic, blob, qs) {
      WalkParses(codec, magic, blob, qs);
      StopParses(codec, magic, blob, WalkEnd(codec, magic, blob, qs));
      var passed := Passed(codec, magic, blob, qs);
      assert passed + [] == passed;
    }
  }

  /**
   * The outcome on every input: blocks exactly when the cursor, moving over whole records, comes to the end, and then
   * the blocks it passed; an error exactly when it comes to a cut size field or a body in the file that does not
   * decode; a panic exactly when it comes to a body that has begun and reaches past the end.
   */
  lemma ParseExact<B>(codec: Bytes -> Option<B>, magic: u32, blob: Bytes)
    ensures forall blocks :: ParseFrom(codec, magic, blob, 0) == Ok(blocks) <==> exists qs :: Ends(codec, magic, blob, qs, blocks)
    ensures ParseFrom(codec, magic, blob, 0) == Err <==> exists qs :: ReachesBad(codec, magic, blob, qs)
    ensures ParseFrom(codec, magic, blob, 0) == Panic <==> exists qs :: ReachesCut(codec, magic, blob, qs)
  {
    hide ParseFrom;
    hide Ends;
    hide ReachesBad;
    hide ReachesCut;
    var qs, passed := SomeWalk(codec, magic, blob);
    WalkDecides(codec, magic, blob, qs);
    forall rs
      ensures ReachesBad(codec, magic, blob, rs) ==> ParseFrom(codec, magic, blob, 0) == Err
      ensures ReachesCut(codec, magic, blob, rs) ==> ParseFrom(codec, magic, blob, 0) == Panic
    {
      WalkDecides(codec, magic, blob, rs);
    }
    forall blocks
      ensures ParseFrom(codec, magic, blob, 0) == Ok(blocks) <==> exists rs :: Ends(codec, magic, blob, rs, blocks)
    {
      if rs :| Ends(codec, magic, blob, rs, blocks) {
        WalkDecides(codec, magic, blob, rs);
      }
    }
  }

  /** There is a walk to the end, to a bad record or to a cut one. */
  lemma SomeWalk<B>(codec: Bytes -> Option<B>, magic: u32, blob: Bytes) returns (qs: seq<nat>, passed: seq<B>)
    ensures Ends(codec, magic, blob, qs, passed) || ReachesBad(codec, magic, blob, qs) || ReachesCut(codec, magic, blob, qs)
  {
    assert Walk(codec, magic, blob, [0]);
    qs := WalkStops(codec, magic, blob, [0]);
    passed := Passed(codec, magic, blob, qs);
  }

  /** Numbers are little-endian: the bytes that begin a record of the test network. */
  lemma TestMagic()
    ensures DecodeU32([0x0b, 0x11, 0x09, 0x07]) == 0x0709110b
  {
  }
}
