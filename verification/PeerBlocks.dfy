/**
 * How A4/python/first_peer/peer.py moves a payload: it is cut into blocks, the blocks are
 * shuffled and framed one reply each, and the receiver parses replies off the byte stream
 * and puts the blocks back by index. The checksum is any function to 32 bytes.
 */
module PeerBlocks {
  import opened Options

  type Byte = b: int | 0 <= b < 256
  type Bytes = seq<Byte>
  type Checksum = Bytes -> Bytes

  const MSG_MAX := 8196
  const LEN_WORD := 4
  const LEN_HASH := 32
  const LEN_HEADER := 3 * LEN_WORD + 2 * LEN_HASH
  const SENDABLE := MSG_MAX - LEN_WORD - LEN_HEADER
  const STATUS_OK := 1
  const STATUS_PEER_EXISTS := 2
  const STATUS_BAD_REQUEST := 3
  const STATUS_OTHER := 4
  const TWO32 := 0x1_0000_0000

  ghost predicate IsChecksum(h: Checksum) {
    forall d: Bytes :: |h(d)| == LEN_HASH
  }

  // ----- Big-endian words

  function Pack(n: int): (r: Bytes)
    requires 0 <= n < TWO32
    ensures |r| == LEN_WORD
  {
    var q := n / 256;
    var p := q / 256;
    [p / 256, p % 256, q % 256, n % 256]
  }

  function Unpack(b: Bytes): (n: int)
    requires |b| == LEN_WORD
    ensures 0 <= n < TWO32
  {
    ((b[0] as int * 256 + b[1] as int) * 256 + b[2] as int) * 256 + b[3] as int
  }

  lemma UnpackPack(n: int)
    requires 0 <= n < TWO32
    ensures Unpack(Pack(n)) == n
  {}

  /** The first byte weighs most. */
  lemma UnpackWeighs(b: Bytes)
    requires |b| == 4
    ensures Unpack(b) == 0x100_0000 * b[0] as int + 0x1_0000 * b[1] as int + 0x100 * b[2] as int + b[3] as int
  {}

  // ----- Blocks

  datatype Block = Block(index: nat, payload: Bytes)

  function BlocksCount(size: nat): nat {
    if size == 0 then 1 else (size + SENDABLE - 1) / SENDABLE
  }

  /** The i-th stretch of the data. */
  function Piece(data: Bytes, i: nat): Bytes
    requires i < BlocksCount(|data|)
  {
    data[i * SENDABLE..if (i + 1) * SENDABLE < |data| then (i + 1) * SENDABLE else |data|]
  }

  /** All blocks but the last fill a message of 8196 bytes with its 80-byte header. */
  lemma PieceIs(data: Bytes, i: nat)
    requires i < BlocksCount(|data|)
    ensures 8116 * i <= |data|
    ensures Piece(data, i) == data[8116 * i..if 8116 * (i + 1) < |data| then 8116 * (i + 1) else |data|]
    ensures i + 1 < BlocksCount(|data|) ==> |Piece(data, i)| == 8116
    ensures |data| > 0 && i + 1 == BlocksCount(|data|) ==> 1 <= |Piece(data, i)| <= 8116
  {}

  /** No block is missing, none is superfluous. */
  lemma CountIs(size: nat)
    ensures size == 0 ==> BlocksCount(size) == 1
    ensures size > 0 ==> 8116 * (BlocksCount(size) - 1) < size <= 8116 * BlocksCount(size)
  {}

  function AllBlocks(data: Bytes): (r: seq<Block>)
    ensures |r| == BlocksCount(|data|)
    ensures forall i :: 0 <= i < |r| ==> r[i] == Block(i, Piece(data, i))
  {
    seq(BlocksCount(|data|), i requires 0 <= i < BlocksCount(|data|) => Block(i, Piece(data, i)))
  }

  function Concat(pieces: seq<Bytes>): Bytes {
    if pieces == [] then [] else Concat(pieces[..|pieces| - 1]) + pieces[|pieces| - 1]
  }

  function Pieces(data: Bytes, n: nat): (r: seq<Bytes>)
    requires n <= BlocksCount(|data|)
    ensures |r| == n && forall i :: 0 <= i < n ==> r[i] == Piece(data, i)
  {
    seq(n, i requires 0 <= i < n => Piece(data, i))
  }

  lemma PiecesNext(data: Bytes, n: nat)
    requires n < BlocksCount(|data|)
    ensures Concat(Pieces(data, n + 1)) == Concat(Pieces(data, n)) + Piece(data, n)
  {
    hide Piece, BlocksCount;
    assert Pieces(data, n + 1)[..n] == Pieces(data, n);
  }

  /** Where the n-th piece starts, or the data ends. */
  function Start(size: nat, n: nat): (r: nat)
    ensures r <= size
  {
    if n * SENDABLE < size then n * SENDABLE else size
  }

  lemma PieceBetween(data: Bytes, n: nat)
    requires n < BlocksCount(|data|)
    ensures data[..Start(|data|, n)] + Piece(data, n) == data[..Start(|data|, n + 1)]
  {
    var from, to := Start(|data|, n), Start(|data|, n + 1);
    assert from == n * SENDABLE;
    assert Piece(data, n) == data[from..to];
  }

  lemma {:induction false} PiecesConcat(data: Bytes, n: nat)
    requires n <= BlocksCount(|data|)
    ensures Concat(Pieces(data, n)) == data[..Start(|data|, n)]
  {
    hide BlocksCount, Piece, Pieces;
    if n > 0 {
      PiecesConcat(data, n - 1);
      PiecesNext(data, n - 1);
      PieceBetween(data, n - 1);
    } else {
      NoPieces(data);
    }
  }

  lemma NoPieces(data: Bytes)
    ensures Concat(Pieces(data, 0)) == data[..Start(|data|, 0)]
  {}

  /** The blocks in order are the data. */
  lemma AllPiecesAreData(data: Bytes)
    ensures Concat(Pieces(data, BlocksCount(|data|))) == data
  {
    PiecesConcat(data, BlocksCount(|data|));
    assert data[..|data|] == data;
  }

  /** The splitting loop of the sender. */
  method SplitBlocks(data: Bytes) returns (blocksCount: nat, blocks: seq<Block>)
    ensures blocksCount == BlocksCount(|data|) && blocks == AllBlocks(data)
  {
    blocksCount := (|data| + SENDABLE - 1) / SENDABLE;
    blocks := [];
    if |data| == 0 {
      blocksCount := 1;
      blocks := [Block(0, [])];
      return;
    }
    var toSend, thisBlock := data, 0;
    while |toSend| > 0
      invariant thisBlock <= blocksCount && |blocks| == thisBlock
      invariant thisBlock * SENDABLE <= |data| + SENDABLE - 1
      invariant toSend == data[if thisBlock * SENDABLE < |data| then thisBlock * SENDABLE else |data|..]
      invariant forall i :: 0 <= i < thisBlock ==> blocks[i] == Block(i, Piece(data, i))
      invariant |toSend| == 0 ==> thisBlock == blocksCount
    {
      var cut := if SENDABLE < |toSend| then SENDABLE else |toSend|;
      assert toSend[..cut] == Piece(data, thisBlock);
      assert toSend[cut..] ==
        data[if (thisBlock + 1) * SENDABLE < |data| then (thisBlock + 1) * SENDABLE else |data|..];
      blocks := blocks + [Block(thisBlock, toSend[..cut])];
      toSend := toSend[cut..];
      thisBlock := thisBlock + 1;
    }
  }

  // ----- Frames

  datatype Reply = Reply(status: int, thisBlock: nat, totalBlocks: nat, blockSum: Bytes, totalSum: Bytes,
                         response: Bytes)

  function AssembleReply(h: Checksum, status: int, thisBlock: int, blocks: int, totalSum: Bytes, reply: Bytes): Bytes
    requires 0 <= status < TWO32 && 0 <= thisBlock < TWO32 && 0 <= blocks < TWO32 && |reply| < TWO32
  {
    Pack(|reply|) + Pack(status) + Pack(thisBlock) + Pack(blocks) + h(reply) + totalSum + reply
  }

  /** Fields of a reply, without its leading length word. */
  function ParseReply(b: Bytes, length: nat): Reply
    requires |b| == LEN_HEADER + length
  {
    Reply(Unpack(b[0..4]), Unpack(b[4..8]), Unpack(b[8..12]), b[12..44], b[44..76], b[76..76 + length])
  }

  /** Where everything is in a frame. */
  lemma FrameLayout(h: Checksum, status: int, thisBlock: int, blocks: int, totalSum: Bytes, reply: Bytes)
    requires 0 <= status < TWO32 && 0 <= thisBlock < TWO32 && 0 <= blocks < TWO32 && |reply| < TWO32
    requires |h(reply)| == 32 && |totalSum| == 32
    ensures var f := AssembleReply(h, status, thisBlock, blocks, totalSum, reply);
      && |f| == 80 + |reply|
      && Unpack(f[0..4]) == |reply| && Unpack(f[4..8]) == status
      && Unpack(f[8..12]) == thisBlock && Unpack(f[12..16]) == blocks
      && f[16..48] == h(reply) && f[48..80] == totalSum && f[80..] == reply
  {
    hide Pack, Unpack;
    UnpackPack(|reply|);
    UnpackPack(status);
    UnpackPack(thisBlock);
    UnpackPack(blocks);
    var f := AssembleReply(h, status, thisBlock, blocks, totalSum, reply);
    assert f[0..4] == Pack(|reply|);
    assert f[4..8] == Pack(status);
    assert f[8..12] == Pack(thisBlock);
    assert f[12..16] == Pack(blocks);
  }

  /** A frame at the front of any stream is read back field by field, and nothing beyond it. */
  lemma ParseAssembled(h: Checksum, status: int, thisBlock: int, blocks: int, totalSum: Bytes, reply: Bytes,
                       rest: Bytes)
    requires 0 <= status < TWO32 && 0 <= thisBlock < TWO32 && 0 <= blocks < TWO32 && |reply| < TWO32
    requires |h(reply)| == LEN_HASH && |totalSum| == LEN_HASH
    ensures var s := AssembleReply(h, status, thisBlock, blocks, totalSum, reply) + rest;
      && |s| >= LEN_WORD + LEN_HEADER + |reply| && Unpack(s[..4]) == |reply|
      && ParseReply(s[4..4 + LEN_HEADER + |reply|], |reply|)
         == Reply(status, thisBlock, blocks, h(reply), totalSum, reply)
      && s[4 + LEN_HEADER + |reply|..] == rest
  {
    hide Pack, Unpack;
    UnpackPack(|reply|);
    UnpackPack(status);
    UnpackPack(thisBlock);
    UnpackPack(blocks);
    var s := AssembleReply(h, status, thisBlock, blocks, totalSum, reply) + rest;
    var b := s[4..4 + LEN_HEADER + |reply|];
    assert s[..4] == Pack(|reply|);
    assert b == Pack(status) + Pack(thisBlock) + Pack(blocks) + h(reply) + totalSum + reply;
    assert b[0..4] == Pack(status);
    assert b[4..8] == Pack(thisBlock);
    assert b[8..12] == Pack(blocks);
    assert b[12..44] == h(reply);
    assert b[44..76] == totalSum;
    assert b[76..76 + |reply|] == reply;
  }

  // ----- Sending

  /** The frames of a sequence of blocks, one after the other. */
  function Frames(h: Checksum, status: int, count: int, totalSum: Bytes, blocks: seq<Block>): Bytes
    requires 0 <= status < TWO32 && 0 <= count < TWO32
    requires forall b :: b in blocks ==> b.index < TWO32 && |b.payload| < TWO32
  {
    if blocks == [] then []
    else AssembleReply(h, status, blocks[0].index, count, totalSum, blocks[0].payload)
         + Frames(h, status, count, totalSum, blocks[1..])
  }

  lemma {:induction false} FramesAppend(h: Checksum, status: int, count: int, totalSum: Bytes, blocks: seq<Block>,
                                        last: Block)
    requires 0 <= status < TWO32 && 0 <= count < TWO32
    requires forall b :: b in blocks + [last] ==> b.index < TWO32 && |b.payload| < TWO32
    ensures Frames(h, status, count, totalSum, blocks + [last])
         == Frames(h, status, count, totalSum, blocks)
            + AssembleReply(h, status, last.index, count, totalSum, last.payload)
  {
    hide AssembleReply;
    assert forall b :: b in blocks ==> b in blocks + [last];
    assert last in blocks + [last];
    if blocks == [] {
      assert Frames(h, status, count, totalSum, [last][1..]) == [];
    } else {
      assert forall b :: b in blocks[1..] + [last] ==> b in blocks + [last];
      assert (blocks + [last])[1..] == blocks[1..] + [last];
      FramesAppend(h, status, count, totalSum, blocks[1..], last);
    }
  }

  /** The payload must fit the 32-bit counters of the frame header. */
  predicate Sendable(data: Bytes) {
    BlocksCount(|data|) < TWO32
  }

  lemma BlocksFit(data: Bytes, blocks: seq<Block>)
    requires Sendable(data) && multiset(blocks) == multiset(AllBlocks(data))
    ensures forall b :: b in blocks ==> b in AllBlocks(data) && b.index < BlocksCount(|data|) && |b.payload| <= SENDABLE
  {
    forall b | b in blocks ensures b in AllBlocks(data) && b.index < BlocksCount(|data|) && |b.payload| <= SENDABLE {
      assert b in multiset(AllBlocks(data));
    }
  }

  /** The byte stream for a payload whose blocks are sent in the given order. */
  function Sent(h: Checksum, status: int, data: Bytes, blocks: seq<Block>): Bytes
    requires 0 <= status < TWO32 && Sendable(data) && multiset(blocks) == multiset(AllBlocks(data))
  {
    BlocksFit(data, blocks);
    Frames(h, status, BlocksCount(|data|), h(data), blocks)
  }

  lemma {:induction false} FramesJoin(h: Checksum, status: int, count: int, totalSum: Bytes, front: seq<Block>,
                                      back: seq<Block>)
    requires 0 <= status < TWO32 && 0 <= count < TWO32
    requires forall b :: b in front + back ==> b.index < TWO32 && |b.payload| < TWO32
    requires forall b :: b in front ==> b in front + back
    requires forall b :: b in back ==> b in front + back
    ensures Frames(h, status, count, totalSum, front + back)
         == Frames(h, status, count, totalSum, front) + Frames(h, status, count, totalSum, back)
  {
    hide AssembleReply;
    if front == [] {
      assert front + back == back;
    } else {
      assert front == [front[0]] + front[1..];
      assert (front + back)[1..] == front[1..] + back;
      FramesJoin(h, status, count, totalSum, front[1..], back);
    }
  }

  /** Every frame that is sent carries the number of blocks and the checksum of the whole payload. */
  lemma EveryFrame(h: Checksum, status: int, data: Bytes, blocks: seq<Block>, j: nat)
    requires 0 <= status < TWO32 && Sendable(data) && multiset(blocks) == multiset(AllBlocks(data)) && j < |blocks|
    ensures blocks[j].index < BlocksCount(|data|) && blocks[j].payload == Piece(data, blocks[j].index)
    ensures forall b :: b in blocks ==> b.index < TWO32 && |b.payload| < TWO32
    ensures (forall b :: b in blocks[..j] ==> b in blocks) && (forall b :: b in blocks[j + 1..] ==> b in blocks)
    ensures Sent(h, status, data, blocks)
         == Frames(h, status, BlocksCount(|data|), h(data), blocks[..j])
            + AssembleReply(h, status, blocks[j].index, BlocksCount(|data|), h(data), blocks[j].payload)
            + Frames(h, status, BlocksCount(|data|), h(data), blocks[j + 1..])
  {
    hide AssembleReply, Piece, BlocksCount;
    BlocksFit(data, blocks);
    assert blocks[j] in blocks;
    var back := blocks[j..];
    assert blocks == blocks[..j] + back && back[0] == blocks[j] && back[1..] == blocks[j + 1..];
    FramesJoin(h, status, BlocksCount(|data|), h(data), blocks[..j], back);
  }

  /** Cut, shuffled by any permutation, and framed. */
  method BuildAndSendResponses(h: Checksum, status: int, data: Bytes, shuffle: seq<Block> -> seq<Block>)
    returns (stream: Bytes)
    requires 0 <= status < TWO32 && Sendable(data)
    requires forall s :: multiset(shuffle(s)) == multiset(s)
    ensures stream == Sent(h, status, data, shuffle(AllBlocks(data)))
  {
    hide AssembleReply;
    var totalSum := h(data);
    var count, blocks := SplitBlocks(data);
    blocks := shuffle(blocks);
    BlocksFit(data, blocks);
    stream := [];
    for i := 0 to |blocks|
      invariant forall b :: b in blocks[..i] ==> b in blocks
      invariant stream == Frames(h, status, count, totalSum, blocks[..i])
    {
      var payload := AssembleReply(h, status, blocks[i].index, count, totalSum, blocks[i].payload);
      assert blocks[..i + 1] == blocks[..i] + [blocks[i]];
      FramesAppend(h, status, count, totalSum, blocks[..i], blocks[i]);
      stream := stream + payload;
    }
    assert blocks[..|blocks|] == blocks;
  }

  // ----- Receiving

  /** Received: the status and data, how much of the stream is left, and whether the data has the total
      checksum of the last reply; Refused: an error status or block checksum; Broken: the exception of a
      stream that ends early or a block index out of range. */
  datatype Outcome =
    | Received(status: int, data: Bytes, rest: Bytes, totalMatches: bool)
    | Refused(rest: Bytes)
    | Broken

  type Slots = seq<Option<Bytes>>

  predicate Complete(slots: Slots) {
    forall i :: 0 <= i < |slots| ==> slots[i].Some?
  }

  function Values(slots: Slots): (r: seq<Bytes>)
    requires Complete(slots)
    ensures |r| == |slots| && forall i :: 0 <= i < |r| ==> r[i] == slots[i].value
  {
    seq(|slots|, i requires 0 <= i < |slots| => slots[i].value)
  }

  datatype Turn = Continue(slots: Slots, rest: Bytes) | Stop(outcome: Outcome)

  /** What one reply at the front of the stream leads to. */
  function OneReply(h: Checksum, stream: Bytes, allBlocks: Option<Slots>): (turn: Turn)
    ensures turn.Continue? ==> |turn.rest| < |stream|
  {
    if |stream| < LEN_WORD || |stream| < LEN_WORD + LEN_HEADER + Unpack(stream[..4]) then Stop(Broken)
    else
      var length := Unpack(stream[..4]);
      var r := ParseReply(stream[4..4 + LEN_HEADER + length], length);
      var rest := stream[4 + LEN_HEADER + length..];
      var slots := if allBlocks.Some? then allBlocks.value else seq(r.totalBlocks, _ => None);
      if r.thisBlock >= |slots| then Stop(Broken)
      else if r.status != STATUS_OK || h(r.response) != r.blockSum then Stop(Refused(rest))
      else
        var slots' := slots[r.thisBlock := Some(r.response)];
        if Complete(slots') then
          var data := Concat(Values(slots'));
          Stop(Received(r.status, data, rest, h(data) == r.totalSum))
        else
          Continue(slots', rest)
  }

  function Receive(h: Checksum, stream: Bytes, allBlocks: Option<Slots>): Outcome
    decreases |stream|
  {
    match OneReply(h, stream, allBlocks)
    case Stop(outcome) => outcome
    case Continue(slots, rest) => Receive(h, rest, Some(slots))
  }

  /** The receiving loop: one reply at a time until no block is missing. */
  method SendToServer(h: Checksum, stream: Bytes) returns (outcome: Outcome)
    ensures outcome == Receive(h, stream, None)
  {
    hide ParseReply, Unpack;
    var input, allBlocks: Option<Slots> := stream, None;
    while true
      invariant Receive(h, input, allBlocks) == Receive(h, stream, None)
      decreases |input|
    {
      if |input| < LEN_WORD { return Broken; }
      var length := Unpack(input[..LEN_WORD]);
      if |input| < LEN_WORD + LEN_HEADER + length { return Broken; }
      var r := ParseReply(input[LEN_WORD..LEN_WORD + LEN_HEADER + length], length);
      var rest := input[LEN_WORD + LEN_HEADER + length..];
      var slots := if allBlocks.Some? then allBlocks.value else seq(r.totalBlocks, _ => None);
      if r.thisBlock >= |slots| { return Broken; }
      if r.status != STATUS_OK { return Refused(rest); }
      if h(r.response) != r.blockSum { return Refused(rest); }
      slots := slots[r.thisBlock := Some(r.response)];
      if Complete(slots) {
        var data := Concat(Values(slots));
        return Received(r.status, data, rest, h(data) == r.totalSum);
      }
      allBlocks, input := Some(slots), rest;
    }
  }

  // ----- Any permutation arrives as the data

  predicate Seen(blocks: seq<Block>, j: nat, i: nat)
    requires j <= |blocks|
  {
    exists k :: 0 <= k < j && blocks[k].index == i
  }

  /** The slots after j replies: exactly the blocks seen so far are there. */
  predicate Filled(slots: Slots, data: Bytes, blocks: seq<Block>, j: nat)
    requires j <= |blocks|
  {
    && |slots| == BlocksCount(|data|)
    && forall i :: 0 <= i < |slots| ==> slots[i] == if Seen(blocks, j, i) then Some(Piece(data, i)) else None
  }

  /** A permutation of all blocks: each index once, with its own piece. */
  predicate Shuffled(data: Bytes, blocks: seq<Block>) {
    && |blocks| == BlocksCount(|data|)
    && (forall k :: 0 <= k < |blocks| ==>
          blocks[k].index < |blocks| && blocks[k].payload == Piece(data, blocks[k].index))
    && (forall i, j :: 0 <= i < j < |blocks| ==> blocks[i].index != blocks[j].index)
    && (forall i :: 0 <= i < |blocks| ==> Seen(blocks, |blocks|, i))
  }

  lemma TwiceInMultiset<T>(s: seq<T>, i: nat, j: nat)
    requires i < j < |s| && s[i] == s[j]
    ensures multiset(s)[s[i]] >= 2
  {
    assert s == s[..i] + [s[i]] + s[i + 1..];
    assert s[j] in s[i + 1..] by { assert s[i + 1..][j - i - 1] == s[j]; }
  }

  lemma {:induction false} OnceInMultiset<T>(s: seq<T>, x: T)
    requires forall i, j :: 0 <= i < j < |s| ==> s[i] != s[j]
    ensures multiset(s)[x] <= 1
  {
    if s != [] {
      var n := |s| - 1;
      OnceInMultiset(s[..n], x);
      assert s == s[..n] + [s[n]];
      if s[n] == x { assert x !in s[..n]; }
    }
  }

  lemma PermutationIsShuffled(data: Bytes, blocks: seq<Block>)
    requires Sendable(data) && multiset(blocks) == multiset(AllBlocks(data))
    ensures Shuffled(data, blocks)
  {
    var all := AllBlocks(data);
    assert |blocks| == |multiset(blocks)| == |multiset(all)| == |all|;
    BlocksFit(data, blocks);
    forall i, j | 0 <= i < j < |blocks| ensures blocks[i].index != blocks[j].index {
      if blocks[i].index == blocks[j].index {
        assert blocks[i] in all && blocks[j] in all;
        TwiceInMultiset(blocks, i, j);
        OnceInMultiset(all, blocks[i]);
      }
    }
    forall i | 0 <= i < |blocks| ensures Seen(blocks, |blocks|, i) {
      assert all[i] in multiset(blocks);
      var k :| 0 <= k < |blocks| && blocks[k] == all[i];
    }
  }

  /** Receiving one more of the shuffled blocks, in front of any rest of the stream. */
  lemma OneBlock(h: Checksum, data: Bytes, total: Bytes, blocks: seq<Block>, j: nat, allBlocks: Option<Slots>,
                 rest: Bytes)
    requires IsChecksum(h) && |total| == 32 && Sendable(data) && Shuffled(data, blocks) && j < |blocks|
    requires |blocks[j].payload| < TWO32
    requires match allBlocks case None => j == 0 case Some(slots) => Filled(slots, data, blocks, j)
    ensures var frame := AssembleReply(h, STATUS_OK, blocks[j].index, |blocks|, total, blocks[j].payload);
      var turn := OneReply(h, frame + rest, allBlocks);
      if j + 1 == |blocks| then turn == Stop(Received(STATUS_OK, data, rest, h(data) == total))
      else turn.Continue? && turn.rest == rest && Filled(turn.slots, data, blocks, j + 1)
  {
    hide ParseReply, Unpack, AssembleReply;
    var b, n := blocks[j], |blocks|;
    ParseAssembled(h, STATUS_OK, b.index, n, total, b.payload, rest);
    var slots := if allBlocks.Some? then allBlocks.value else seq(n, _ => None);
    assert Filled(slots, data, blocks, j);
    var slots' := slots[b.index := Some(b.payload)];
    FillOne(slots, data, blocks, j);
    if j + 1 == n {
      assert Values(slots') == Pieces(data, n);
      AllPiecesAreData(data);
    } else {
      var i := blocks[j + 1].index;
      assert !Seen(blocks, j + 1, i);
      assert slots'[i] == None;
    }
  }

  lemma FillOne(slots: Slots, data: Bytes, blocks: seq<Block>, j: nat)
    requires Shuffled(data, blocks) && j < |blocks| && Filled(slots, data, blocks, j)
    ensures Filled(slots[blocks[j].index := Some(blocks[j].payload)], data, blocks, j + 1)
    ensures j + 1 == |blocks| ==> Complete(slots[blocks[j].index := Some(blocks[j].payload)])
  {
    forall i | 0 <= i < |slots| ensures Seen(blocks, j + 1, i) <==> Seen(blocks, j, i) || i == blocks[j].index {
      if i == blocks[j].index { assert blocks[j].index == i; }
    }
  }

  lemma {:induction false} ReceiveFrom(h: Checksum, data: Bytes, total: Bytes, blocks: seq<Block>, j: nat,
                                       allBlocks: Option<Slots>, rest: Bytes)
    requires IsChecksum(h) && |total| == 32 && Sendable(data) && Shuffled(data, blocks)
    requires j < |blocks| == BlocksCount(|data|)
    requires forall b :: b in blocks ==> b.index < TWO32 && |b.payload| < TWO32
    requires match allBlocks case None => j == 0 case Some(slots) => Filled(slots, data, blocks, j)
    ensures Receive(h, Frames(h, STATUS_OK, |blocks|, total, blocks[j..]) + rest, allBlocks)
         == Received(STATUS_OK, data, rest, h(data) == total)
    decreases |blocks| - j
  {
    hide AssembleReply, OneReply, Filled, Shuffled;
    var frame := AssembleReply(h, STATUS_OK, blocks[j].index, |blocks|, total, blocks[j].payload);
    var more := Frames(h, STATUS_OK, |blocks|, total, blocks[j + 1..]);
    assert blocks[j] in blocks;
    assert blocks[j..][1..] == blocks[j + 1..];
    var stream := Frames(h, STATUS_OK, |blocks|, total, blocks[j..]) + rest;
    assert stream == frame + (more + rest);
    OneBlock(h, data, total, blocks, j, allBlocks, more + rest);
    if j + 1 == |blocks| {
      assert more + rest == rest;
    } else {
      var turn := OneReply(h, stream, allBlocks);
      ReceiveFrom(h, data, total, blocks, j + 1, Some(turn.slots), rest);
    }
  }

  /**
   * Whatever the payload and however its blocks are shuffled, the receiver gets the payload back and takes
   * exactly the frames off the stream; it finds the total checksum right if and only if it is that of the payload.
   */
  lemma AnyTotal(h: Checksum, data: Bytes, total: Bytes, blocks: seq<Block>, rest: Bytes)
    requires IsChecksum(h) && |total| == 32 && Sendable(data) && multiset(blocks) == multiset(AllBlocks(data))
    requires forall b :: b in blocks ==> b.index < TWO32 && |b.payload| < TWO32
    ensures Receive(h, Frames(h, 1, BlocksCount(|data|), total, blocks) + rest, None)
         == Received(1, data, rest, h(data) == total)
  {
    hide Receive, Frames, Shuffled;
    PermutationIsShuffled(data, blocks);
    ShuffledLength(data, blocks);
    assert blocks[0..] == blocks;
    ReceiveFrom(h, data, total, blocks, 0, None, rest);
  }

  /** With the frames as they are sent it is right. */
  lemma TransferDelivers(h: Checksum, data: Bytes, blocks: seq<Block>, rest: Bytes)
    requires IsChecksum(h) && Sendable(data) && multiset(blocks) == multiset(AllBlocks(data))
    ensures Receive(h, Sent(h, 1, data, blocks) + rest, None) == Received(1, data, rest, true)
  {
    hide Receive, Frames;
    BlocksFit(data, blocks);
    AnyTotal(h, data, h(data), blocks, rest);
  }

  lemma ShuffledLength(data: Bytes, blocks: seq<Block>)
    requires Shuffled(data, blocks)
    ensures |blocks| == BlocksCount(|data|) > 0
  {}

  /** Any other status is refused at the first frame. */
  lemma ErrorsAreRefused(h: Checksum, status: int, data: Bytes, blocks: seq<Block>)
    requires IsChecksum(h) && Sendable(data) && multiset(blocks) == multiset(AllBlocks(data))
    requires 0 <= status < TWO32 && status != 1
    ensures Receive(h, Sent(h, status, data, blocks), None).Refused?
  {
    hide ParseReply, Unpack, AssembleReply;
    BlocksFit(data, blocks);
    PermutationIsShuffled(data, blocks);
    var b := blocks[0];
    assert b in blocks;
    ParseAssembled(h, status, b.index, |blocks|, h(data), b.payload, Frames(h, status, |blocks|, h(data), blocks[1..]));
  }

  /** So is a block whose bytes do not have the checksum sent with them. */
  lemma CorruptIsRefused(h: Checksum, stream: Bytes)
    requires |stream| >= 80 && |stream| >= 80 + Unpack(stream[0..4])
    requires Unpack(stream[8..12]) < Unpack(stream[12..16])
    requires h(stream[80..80 + Unpack(stream[0..4])]) != stream[16..48]
    ensures Receive(h, stream, None).Refused?
  {
    hide Unpack, ParseReply;
    assert stream[..4] == stream[0..4];
    ReplyFields(stream, Unpack(stream[0..4]));
  }

  /** Where the fields of a frame at the front of the stream are. */
  lemma ReplyFields(stream: Bytes, length: nat)
    requires |stream| >= 80 + length
    ensures var r := ParseReply(stream[4..80 + length], length);
      && r.status == Unpack(stream[4..8]) && r.thisBlock == Unpack(stream[8..12])
      && r.totalBlocks == Unpack(stream[12..16]) && r.blockSum == stream[16..48]
      && r.totalSum == stream[48..80] && r.response == stream[80..80 + length]
  {
    hide Unpack;
    Stretch(stream, 4, 80 + length, 0, 4);
    Stretch(stream, 4, 80 + length, 4, 8);
    Stretch(stream, 4, 80 + length, 8, 12);
    Stretch(stream, 4, 80 + length, 12, 44);
    Stretch(stream, 4, 80 + length, 44, 76);
    Stretch(stream, 4, 80 + length, 76, 76 + length);
  }

  /** A stream that ends within a frame, or a first frame whose block is not one of the blocks, raises. */
  lemma ShortIsBroken(h: Checksum, stream: Bytes)
    requires if |stream| < 4 || |stream| < 80 + Unpack(stream[0..4]) then true
             else Unpack(stream[8..12]) >= Unpack(stream[12..16])
    ensures Receive(h, stream, None).Broken?
  {
    hide Unpack, ParseReply;
    if |stream| >= 4 {
      assert stream[..4] == stream[0..4];
      if |stream| >= 80 + Unpack(stream[0..4]) { ReplyFields(stream, Unpack(stream[0..4])); }
    }
  }

  lemma Stretch(s: Bytes, from: nat, to: nat, i: nat, j: nat)
    requires from <= to <= |s| && i <= j <= to - from
    ensures s[from..to][i..j] == s[from + i..from + j]
  {
    var long, short := s[from..to][i..j], s[from + i..from + j];
    assert forall k :: 0 <= k < j - i ==> long[k] == s[from + i + k] == short[k];
  }

  // ----- Requests

  const LEN_IP := 16

  function Zeros(n: nat): (z: Bytes)
    ensures |z| == n && forall i :: 0 <= i < n ==> z[i] == 0
  {
    seq(n, _ => 0)
  }

  /** An address text cut or padded with zero bytes to the width of its field. */
  function IpField(ip: Bytes): (f: Bytes)
    ensures |f| == LEN_IP
  {
    if |ip| >= LEN_IP then ip[..LEN_IP] else ip + Zeros(LEN_IP - |ip|)
  }

  lemma IpFieldBytes(ip: Bytes, i: nat)
    requires i < 16
    ensures IpField(ip)[i] == if i < |ip| then ip[i] else 0
  {}

  function StripEnd(s: Bytes): Bytes {
    if s != [] && s[|s| - 1] == 0 then StripEnd(s[..|s| - 1]) else s
  }

  function StripStart(s: Bytes): Bytes {
    if s != [] && s[0] == 0 then StripStart(s[1..]) else s
  }

  /** Zero bytes stripped from both ends. */
  function Strip(s: Bytes): Bytes { StripStart(StripEnd(s)) }

  predicate Bare(s: Bytes) {
    s != [] ==> s[0] != 0 && s[|s| - 1] != 0
  }

  lemma {:induction false} StripEndPadding(s: Bytes, n: nat)
    ensures StripEnd(s + Zeros(n)) == StripEnd(s)
  {
    if n == 0 {
      assert s + Zeros(0) == s;
    } else {
      assert (s + Zeros(n))[..|s| + n - 1] == s + Zeros(n - 1);
      StripEndPadding(s, n - 1);
    }
  }

  lemma {:induction false} StripEndBare(s: Bytes)
    ensures StripEnd(s) != [] ==> StripEnd(s)[|StripEnd(s)| - 1] != 0
    ensures |StripEnd(s)| <= |s|
  {
    if s != [] && s[|s| - 1] == 0 { StripEndBare(s[..|s| - 1]); }
  }

  lemma {:induction false} StripStartBare(s: Bytes)
    requires s != [] ==> s[|s| - 1] != 0
    ensures Bare(StripStart(s)) && |StripStart(s)| <= |s|
  {
    if s != [] && s[0] == 0 { StripStartBare(s[1..]); }
  }

  lemma StripBare(s: Bytes)
    ensures Bare(Strip(s)) && |Strip(s)| <= |s|
  {
    StripEndBare(s);
    StripStartBare(StripEnd(s));
  }

  lemma {:induction false} StripEndIs(s: Bytes) returns (n: nat)
    ensures s == StripEnd(s) + Zeros(n)
  {
    if s != [] && s[|s| - 1] == 0 {
      n := StripEndIs(s[..|s| - 1]);
      assert s == s[..|s| - 1] + [0];
      assert Zeros(n) + [0] == Zeros(n + 1);
      n := n + 1;
    } else {
      n := 0;
      assert s + Zeros(0) == s;
    }
  }

  lemma {:induction false} StripStartIs(s: Bytes) returns (n: nat)
    ensures s == Zeros(n) + StripStart(s)
  {
    if s != [] && s[0] == 0 {
      n := StripStartIs(s[1..]);
      assert s == [0] + s[1..];
      assert [0] + Zeros(n) == Zeros(n + 1);
      n := n + 1;
    } else {
      n := 0;
      assert Zeros(0) + s == s;
    }
  }

  /** Stripping takes zero bytes off the ends, as many as there are, and nothing else. */
  lemma StripIs(s: Bytes) returns (before: nat, after: nat)
    ensures s == Zeros(before) + Strip(s) + Zeros(after)
    ensures Strip(s) != [] ==> Strip(s)[0] != 0 && Strip(s)[|Strip(s)| - 1] != 0
  {
    after := StripEndIs(s);
    before := StripStartIs(StripEnd(s));
    StripBare(s);
  }

  /** An address survives its field exactly when it fits and has no zero bytes at its ends. */
  lemma IpSurvives(ip: Bytes)
    ensures Strip(IpField(ip)) == ip <==> |ip| <= LEN_IP && Bare(ip)
  {
    StripBare(IpField(ip));
    if |ip| <= LEN_IP && Bare(ip) {
      if |ip| < LEN_IP { StripEndPadding(ip, LEN_IP - |ip|); } else { assert ip[..LEN_IP] == ip; }
    }
  }

  datatype Message = Message(ip: Bytes, port: nat, code: nat, length: nat, payload: Bytes)

  function AssembleMessage(ip: Bytes, port: nat, code: nat, request: Bytes): Bytes
    requires port < TWO32 && code < TWO32 && |request| < TWO32
  {
    IpField(ip) + Pack(port) + Pack(code) + Pack(|request|) + request
  }

  /** None stands for the exception of a message too short for its header. */
  function ParseMessage(b: Bytes): Option<Message> {
    if |b| < 28 then None
    else
      var length := Unpack(b[24..28]);
      Some(Message(Strip(b[0..16]), Unpack(b[16..20]), Unpack(b[20..24]), length,
                   b[28..if 28 + length < |b| then 28 + length else |b|]))
  }

  /** Where everything is in a request. */
  lemma MessageLayout(ip: Bytes, port: nat, code: nat, request: Bytes)
    requires port < TWO32 && code < TWO32 && |request| < TWO32
    ensures var m := AssembleMessage(ip, port, code, request);
      && |m| == 28 + |request| && m[0..16] == IpField(ip) && Unpack(m[16..20]) == port
      && Unpack(m[20..24]) == code && Unpack(m[24..28]) == |request| && m[28..] == request
  {
    hide Pack, Unpack, IpField;
    UnpackPack(port);
    UnpackPack(code);
    UnpackPack(|request|);
    IpFieldLength(ip);
    var m := AssembleMessage(ip, port, code, request);
    assert m[16..20] == Pack(port);
    assert m[20..24] == Pack(code);
    assert m[24..28] == Pack(|request|);
  }

  /** Every field of a request is read back, the address as its field keeps it. */
  lemma MessageRoundTrip(ip: Bytes, port: nat, code: nat, request: Bytes)
    requires port < TWO32 && code < TWO32 && |request| < TWO32
    ensures ParseMessage(AssembleMessage(ip, port, code, request))
         == Some(Message(Strip(IpField(ip)), port, code, |request|, request))
  {
    hide Pack, Unpack, IpField, Strip;
    UnpackPack(port);
    UnpackPack(code);
    UnpackPack(|request|);
    var b := AssembleMessage(ip, port, code, request);
    assert b[0..16] == IpField(ip);
    assert b[16..20] == Pack(port);
    assert b[20..24] == Pack(code);
    assert b[24..28] == Pack(|request|);
    assert b[28..28 + |request|] == request;
  }

  // ----- The list of peers as the answer to a registration

  type Port = p: int | 0 <= p < TWO32

  datatype Host = Host(ip: Bytes, port: Port)

  const LEN_HOST := LEN_IP + LEN_WORD

  function HostField(h: Host): (r: Bytes)
    ensures |r| == LEN_HOST
  {
    IpField(h.ip) + Pack(h.port)
  }

  lemma HostLayout(h: Host)
    ensures |HostField(h)| == 20 && HostField(h)[0..16] == IpField(h.ip) && Unpack(HostField(h)[16..20]) == h.port
  {
    hide Pack, Unpack, IpField;
    UnpackPack(h.port);
    IpFieldLength(h.ip);
    assert HostField(h)[16..20] == Pack(h.port);
  }

  function EncodeHosts(hosts: seq<Host>): (r: Bytes)
    ensures |r| == LEN_HOST * |hosts|
  {
    if hosts == [] then [] else EncodeHosts(hosts[..|hosts| - 1]) + HostField(hosts[|hosts| - 1])
  }

  /** The entry at a position of the answer. */
  function HostAt(data: Bytes, at: nat): Host
    requires at + LEN_HOST <= |data|
  {
    Host(Strip(data[at..at + LEN_IP]), Unpack(data[at + LEN_IP..at + LEN_HOST]))
  }

  /** All whole entries of the answer. */
  function HostsIn(data: Bytes): (r: seq<Host>)
    ensures |r| == |data| / LEN_HOST
    ensures forall i :: 0 <= i < |r| ==> r[i] == HostAt(data, LEN_HOST * i)
  {
    seq(|data| / LEN_HOST, i requires 0 <= i < |data| / LEN_HOST => HostAt(data, LEN_HOST * i))
  }

  /** What its field keeps of a host. */
  function Kept(h: Host): Host { Host(Strip(IpField(h.ip)), h.port) }

  predicate Survives(h: Host) { |h.ip| <= LEN_IP && Bare(h.ip) }

  lemma SurvivesIffKept(h: Host)
    ensures Survives(h) <==> Kept(h) == h
  {
    IpSurvives(h.ip);
  }

  /** A host that went over the wire once is not changed by going over it again. */
  lemma KeptTwice(h: Host)
    ensures Kept(Kept(h)) == Kept(h)
  {
    StripBare(IpField(h.ip));
    SurvivesIffKept(Kept(h));
  }

  lemma FieldIsKept(h: Host)
    ensures HostAt(HostField(h), 0) == Kept(h)
  {
    hide Pack, Unpack, IpField, Strip;
    UnpackPack(h.port);
    var f := HostField(h);
    assert f[..LEN_IP] == IpField(h.ip) by { IpFieldLength(h.ip); }
    assert f[LEN_IP..LEN_HOST] == Pack(h.port) by { IpFieldLength(h.ip); }
  }

  /** Entry by entry, the list is read back as the fields keep it. */
  lemma {:induction false} HostsKept(hosts: seq<Host>)
    ensures |HostsIn(EncodeHosts(hosts))| == |hosts|
    ensures forall i :: 0 <= i < |hosts| ==> HostsIn(EncodeHosts(hosts))[i] == Kept(hosts[i])
  {
    hide HostField, Kept, HostAt;
    if hosts != [] {
      var n := |hosts| - 1;
      HostsKept(hosts[..n]);
      FieldIsKept(hosts[n]);
      var front, data := EncodeHosts(hosts[..n]), EncodeHosts(hosts);
      forall i | 0 <= i < |hosts| ensures HostsIn(data)[i] == Kept(hosts[i]) {
        if i < n {
          assert HostsIn(front)[i] == Kept(hosts[..n][i]);
          SameEntry(front, HostField(hosts[n]), LEN_HOST * i);
        } else {
          EntryAfter(front, HostField(hosts[n]));
        }
      }
    }
  }

  lemma SameEntry(front: Bytes, back: Bytes, at: nat)
    requires at + LEN_HOST <= |front|
    ensures HostAt(front + back, at) == HostAt(front, at)
  {
    hide Strip, Unpack;
    assert (front + back)[at..at + LEN_IP] == front[at..at + LEN_IP];
    assert (front + back)[at + LEN_IP..at + LEN_HOST] == front[at + LEN_IP..at + LEN_HOST];
  }

  lemma EntryAfter(front: Bytes, back: Bytes)
    requires |back| == LEN_HOST
    ensures HostAt(front + back, |front|) == HostAt(back, 0)
  {
    hide Strip, Unpack;
    assert (front + back)[|front|..|front| + LEN_IP] == back[..LEN_IP];
    assert (front + back)[|front| + LEN_IP..|front| + LEN_HOST] == back[LEN_IP..LEN_HOST];
  }

  /** The list is read back as it was exactly when every address in it survives its field. */
  lemma HostsRoundTrip(hosts: seq<Host>)
    ensures HostsIn(EncodeHosts(hosts)) == hosts <==> forall h :: h in hosts ==> Survives(h)
  {
    hide Survives, Kept, HostAt, HostsIn, EncodeHosts;
    HostsKept(hosts);
    forall h | h in hosts ensures Survives(h) <==> Kept(h) == h {
      SurvivesIffKept(h);
    }
    if HostsIn(EncodeHosts(hosts)) == hosts {
      forall h | h in hosts ensures Survives(h) {
        var i :| 0 <= i < |hosts| && hosts[i] == h;
      }
    }
  }

  /**
   * The answer to a registration from end to end: encoded, cut into blocks, shuffled, framed, received
   * and decoded, the list arrives as the fields keep it, and nothing beyond it is taken off the stream.
   */
  lemma AnswerArrives(h: Checksum, hosts: seq<Host>, blocks: seq<Block>, rest: Bytes)
    requires IsChecksum(h) && Sendable(EncodeHosts(hosts))
    requires multiset(blocks) == multiset(AllBlocks(EncodeHosts(hosts)))
    ensures var outcome := Receive(h, Sent(h, STATUS_OK, EncodeHosts(hosts), blocks) + rest, None);
      && outcome.Received? && outcome.status == STATUS_OK && outcome.rest == rest && outcome.totalMatches
      && |HostsIn(outcome.data)| == |hosts|
      && forall i :: 0 <= i < |hosts| ==> HostsIn(outcome.data)[i] == Kept(hosts[i])
  {
    hide Receive, Sent, Kept, EncodeHosts, HostsIn;
    TransferDelivers(h, EncodeHosts(hosts), blocks, rest);
    HostsKept(hosts);
  }

  lemma IpFieldLength(ip: Bytes)
    ensures |IpField(ip)| == LEN_IP
  {}
}
