/**
 * A4/src/sha256.c on a little-endian host: the hash context that takes a message in pieces,
 * the block function with its moving schedule pointers and unrolled rounds, and the final
 * padding. Whatever the pieces, the digest is that of module Sha256Spec.
 */
module Sha256Code {
  import opened Sha256Spec

  // ----- The Boolean forms and byte orders the code uses

  function CodeCh(x: bv32, y: bv32, z: bv32): bv32 { z ^ (x & (y ^ z)) }

  function CodeMaj(x: bv32, y: bv32, z: bv32): bv32 { (x & (y | z)) | (y & z) }

  lemma AndOverXor(x: bv32, y: bv32, z: bv32)
    ensures x & (y ^ z) == (x & y) ^ (x & z)
  {}

  lemma NotAnd(x: bv32, z: bv32)
    ensures !x & z == z ^ (x & z)
  {}

  lemma XorSwap(a: bv32, b: bv32, z: bv32)
    ensures z ^ (a ^ b) == a ^ (z ^ b)
  {}

  /** One operation less than the standard's form, and the same function. */
  lemma ChForm(x: bv32, y: bv32, z: bv32)
    ensures CodeCh(x, y, z) == Ch(x, y, z)
  {
    calc {
      z ^ (x & (y ^ z));
      { AndOverXor(x, y, z); }
      z ^ ((x & y) ^ (x & z));
      { XorSwap(x & y, x & z, z); }
      (x & y) ^ (z ^ (x & z));
      { NotAnd(x, z); }
      (x & y) ^ (!x & z);
    }
  }

  lemma OrXor(p: bv32, q: bv32)
    ensures p | q == (p ^ q) ^ (p & q)
  {}

  lemma OrAsXor(x: bv32, y: bv32, z: bv32)
    ensures (x & (y | z)) | (y & z) == (((x & y) | (x & z)) ^ (y & z)) ^ (((x & y) | (x & z)) & (y & z))
  {}

  lemma CommonBits(x: bv32, y: bv32, z: bv32)
    ensures ((x & y) | (x & z)) & (y & z) == x & y & z && (x & y) & (x & z) == x & y & z
  {}

  lemma XorCancel(a: bv32, b: bv32, c: bv32, m: bv32)
    ensures (((a ^ b) ^ m) ^ c) ^ m == a ^ b ^ c
  {}

  lemma MajForm(x: bv32, y: bv32, z: bv32)
    ensures CodeMaj(x, y, z) == Maj(x, y, z)
  {
    OrAsXor(x, y, z);
    CommonBits(x, y, z);
    OrXor(x & y, x & z);
    XorCancel(x & y, x & z, y & z, x & y & z);
  }

  function ByteSwap(x: bv32): bv32 {
    (((x >> 8) | (x << 24)) & 0xff00ff00) | (((x << 8) | (x >> 24)) & 0x00ff00ff)
  }

  /** The word the host loads from four bytes. */
  function LittleEndian(b0: Byte, b1: Byte, b2: Byte, b3: Byte): bv32 {
    (b0 as bv32) | ((b1 as bv32) << 8) | ((b2 as bv32) << 16) | ((b3 as bv32) << 24)
  }

  /** The bytes the host stores for a word. */
  function LittleBytes(w: bv32): seq<Byte> {
    [(w & 0xff) as Byte, ((w >> 8) & 0xff) as Byte, ((w >> 16) & 0xff) as Byte, ((w >> 24) & 0xff) as Byte]
  }

  lemma SwapLoaded(b0: Byte, b1: Byte, b2: Byte, b3: Byte)
    ensures ByteSwap(LittleEndian(b0, b1, b2, b3)) == BigEndian(b0, b1, b2, b3)
  {}

  lemma SwapBytes(w: bv32)
    ensures ByteSwap(w) & 0xff == (w >> 24) & 0xff
    ensures (ByteSwap(w) >> 8) & 0xff == (w >> 16) & 0xff
    ensures (ByteSwap(w) >> 16) & 0xff == (w >> 8) & 0xff
    ensures (ByteSwap(w) >> 24) & 0xff == w & 0xff
  {}

  lemma SwapStored(w: bv32)
    ensures LittleBytes(ByteSwap(w)) == WordBytes(w)
  {
    hide ByteSwap;
    SwapBytes(w);
  }

  /** Swapping a 64-bit number, given and returned as its high and low words. */
  function ByteSwap64(high: bv32, low: bv32): (bv32, bv32) {
    (ByteSwap(low), ByteSwap(high))
  }

  /** What the host stores for the swapped length is the length, most significant byte first. */
  lemma LengthStored(bits: nat)
    requires bits < TWO64
    ensures var (high, low) := ByteSwap64((bits / TWO32) as bv32, (bits % TWO32) as bv32);
      LittleBytes(low) + LittleBytes(high) == LengthBytes(bits)
  {
    hide ByteSwap, LittleBytes, WordBytes;
    SwapStored((bits / TWO32) as bv32);
    SwapStored((bits % TWO32) as bv32);
  }

  /** One round as the macro computes it. */
  function DoRound(v: Working, k: bv32, w: bv32): Working {
    var t1 := Plus(Plus(Plus(Plus(v.h, BigSigma1(v.e)), CodeCh(v.e, v.f, v.g)), k), w);
    var t2 := Plus(BigSigma0(v.a), CodeMaj(v.a, v.b, v.c));
    Working(Plus(t1, t2), v.a, v.b, v.c, Plus(v.d, t1), v.e, v.f, v.g)
  }

  lemma DoRoundIsRound(v: Working, k: bv32, w: bv32)
    ensures DoRound(v, k, w) == Round(v, k, w)
  {
    hide Plus, BigSigma0, BigSigma1, Ch, Maj, CodeCh, CodeMaj;
    ChForm(v.e, v.f, v.g);
    MajForm(v.a, v.b, v.c);
  }

  /** One more round of the running computation. */
  lemma RoundsStep(start: Working, v: Working, block: seq<Byte>, t: nat)
    requires |block| == 64 && t < 64 && v == Rounds(start, block, t)
    ensures DoRound(v, K[t], W(block, t)) == Rounds(start, block, t + 1)
  {
    hide DoRound, Round, W;
    DoRoundIsRound(v, K[t], W(block, t));
  }

  class Context {
    var totalLength: nat
    const hash: array<bv32>
    var bufferLength: nat
    const buffer: array<Byte>
    ghost var processed: seq<Byte>

    ghost predicate Valid()
      reads this, hash, buffer
    {
      && hash.Length == 8 && buffer.Length == 64 && bufferLength < 64
      && |processed| % 64 == 0 && hash[..] == HashBlocks(processed)
      && totalLength == 8 * |Message()| % TWO64
    }

    /** All bytes taken in so far. */
    ghost function Message(): seq<Byte>
      requires buffer.Length == 64 && bufferLength <= 64
      reads this, buffer
    {
      processed + buffer[..bufferLength]
    }

    constructor ()
      ensures Valid() && Message() == [] && fresh(hash) && fresh(buffer)
    {
      hash := new bv32[8](i requires 0 <= i < 8 => H0[i]);
      buffer := new Byte[64];
      totalLength := 0;
      bufferLength := 0;
      processed := [];
    }

    /** The word the host sees at index i of the buffer. */
    function BufferWord(i: nat): bv32
      requires buffer.Length == 64 && i < 16
      reads buffer
    {
      LittleEndian(buffer[4 * i], buffer[4 * i + 1], buffer[4 * i + 2], buffer[4 * i + 3])
    }

    /** The message schedule, with one pointer per term of the recurrence. */
    method Schedule() returns (buf: array<bv32>)
      requires buffer.Length == 64
      ensures fresh(buf) && buf.Length == 64
      ensures forall t :: 0 <= t < 64 ==> buf[t] == W(buffer[..], t)
    {
      hide Plus, Sigma0, Sigma1, LittleEndian, BigEndian, ByteSwap;
      buf := new bv32[64];
      ghost var block := buffer[..];
      var w := 0;
      while w < 16
        invariant 0 <= w <= 16 && buffer[..] == block
        invariant forall t :: 0 <= t < w ==> buf[t] == W(block, t)
      {
        SwapLoaded(buffer[4 * w], buffer[4 * w + 1], buffer[4 * w + 2], buffer[4 * w + 3]);
        buf[w] := ByteSwap(BufferWord(w));
        w := w + 1;
      }
      var w16, w15, w7, w2 := 0, 1, 9, 14;
      while w < 64
        invariant 16 <= w <= 64 && buffer[..] == block
        invariant w16 == w - 16 && w15 == w - 15 && w7 == w - 7 && w2 == w - 2
        invariant forall t :: 0 <= t < w ==> buf[t] == W(block, t)
      {
        buf[w] := Plus(Plus(Plus(Sigma1(buf[w2]), buf[w7]), Sigma0(buf[w15])), buf[w16]);
        w, w7, w16 := w + 1, w7 + 1, w16 + 1;
        w2 := w2 + 1;
        w15 := w15 + 1;
      }
    }

    /** The block function: 64 rounds on the schedule, added into the hash value. */
    method Guts()
      requires hash.Length == 8 && buffer.Length == 64
      modifies hash
      ensures hash[..] == Compress(old(hash[..]), buffer[..])
    {
      hide Plus, Rounds, AddWorking;
      var buf := Schedule();
      var v := AllRounds(Load(hash[..]), buf[..], buffer[..]);
      AddToHash(v);
    }

    method AddToHash(v: Working)
      requires hash.Length == 8
      modifies hash
      ensures hash[..] == AddWorking(old(hash[..]), v)
    {
      hide Plus;
      hash[0], hash[1], hash[2], hash[3], hash[4], hash[5], hash[6], hash[7] :=
        Plus(hash[0], v.a), Plus(hash[1], v.b), Plus(hash[2], v.c), Plus(hash[3], v.d),
        Plus(hash[4], v.e), Plus(hash[5], v.f), Plus(hash[6], v.g), Plus(hash[7], v.h);
    }

    /** Takes in len bytes, filling the buffer and hashing it whenever it is full. */
    method Update(data: seq<Byte>)
      requires Valid()
      modifies this, hash, buffer
      ensures Valid() && Message() == old(Message()) + data
    {
      hide Compress, HashBlocks;
      var done := 0;
      while done < |data|
        invariant 0 <= done <= |data| && Valid()
        invariant Message() == old(Message()) + data[..done]
      {
        var bufferBytesLeft := 64 - bufferLength;
        var bytesToCopy := bufferBytesLeft;
        if bytesToCopy > |data| - done { bytesToCopy := |data| - done; }
        Copy(data[done..done + bytesToCopy]);
        done := done + bytesToCopy;
      }
    }

    /** Valid, but for a buffer that may just have become full. */
    ghost predicate Filling()
      reads this, hash, buffer
    {
      && hash.Length == 8 && buffer.Length == 64 && bufferLength <= 64
      && |processed| % 64 == 0 && hash[..] == HashBlocks(processed)
      && totalLength == 8 * |Message()| % TWO64
    }

    /** One round of the update loop: bytes that fit into the buffer, then the block if it is full. */
    method Copy(bytes: seq<Byte>)
      requires Valid() && 0 < |bytes| <= 64 - bufferLength
      modifies this, hash, buffer
      ensures Valid() && Message() == old(Message()) + bytes
    {
      hide Compress, HashBlocks;
      Append(bytes);
      if bufferLength == 64 {
        Flush();
      }
    }

    method Append(bytes: seq<Byte>)
      requires Valid() && 0 < |bytes| <= 64 - bufferLength
      modifies `totalLength, `bufferLength, buffer
      ensures Filling() && Message() == old(Message()) + bytes
    {
      hide HashBlocks;
      ghost var before := buffer[..];
      forall i | 0 <= i < |bytes| {
        buffer[bufferLength + i] := bytes[i];
      }
      assert buffer[..bufferLength + |bytes|] == before[..bufferLength] + bytes;
      LengthStep(|Message()|, |bytes|);
      totalLength := (totalLength + |bytes| * 8) % TWO64;
      bufferLength := bufferLength + |bytes|;
      assert Message() == old(Message()) + bytes;
    }

    method Flush()
      requires Filling() && bufferLength == 64
      modifies this, hash
      ensures Valid() && Message() == old(Message()) && bufferLength == 0
    {
      hide Compress, HashBlocks;
      assert buffer[..64] == buffer[..];
      Guts();
      HashBlocksStep(processed, buffer[..]);
      processed := processed + buffer[..];
      bufferLength := 0;
      assert Message() == old(Message());
    }

    /**
     * Pads the message, appends its length and writes the digest unless out is null. The
     * context has then taken in whole blocks only.
     */
    method Final(out: array?<Byte>)
      requires Valid() && out != buffer && (out != null ==> out.Length == 32)
      modifies this, hash, buffer, out
      ensures Valid() && Message() == Pad(old(Message())) && bufferLength == 0
      ensures out != null ==> out[..] == Sha256(old(Message()))
    {
      hide HashBlocks, Pad, HashBytes;
      ghost var message := Message();
      PadMessage();
      WholeBlocks(message);
      if out != null { WriteHash(out); }
    }

    method PadMessage()
      requires Valid()
      modifies this, hash, buffer
      ensures Valid() && Message() == Pad(old(Message()))
    {
      hide HashBlocks, ByteSwap, LittleBytes, LengthBytes, Pad;
      ghost var message := Message();
      var bytesToPad := 120 - bufferLength;
      if bytesToPad > 64 { bytesToPad := bytesToPad - 64; }
      RemainderOfBlocks(|processed|, bufferLength);
      var lengthPad := SwappedLength();
      PaddingParts(message, bytesToPad);
      Update(PADDING[..bytesToPad]);
      Update(lengthPad);
    }

    /** The bytes of the swapped length as the host stores them. */
    method SwappedLength() returns (lengthPad: seq<Byte>)
      requires Valid()
      ensures lengthPad == LengthBytes(8 * |Message()| % TWO64)
    {
      hide ByteSwap, LittleBytes, LengthBytes, HashBlocks;
      var (high, low) := ByteSwap64((totalLength / TWO32) as bv32, (totalLength % TWO32) as bv32);
      LengthStored(totalLength);
      lengthPad := LittleBytes(low) + LittleBytes(high);
    }

    /** Bytes of a whole number of blocks leave nothing in the buffer. */
    lemma WholeBlocks(message: seq<Byte>)
      requires Valid() && Message() == Pad(message)
      ensures bufferLength == 0 && hash.Length == 8 && HashBytes(hash[..]) == Sha256(message)
    {
      hide Pad, HashBytes;
      PadLength(message);
      RemainderOfBlocks(|processed|, bufferLength);
      assert Message() == processed;
    }

    method WriteHash(out: array<Byte>)
      requires hash.Length == 8 && out.Length == 32
      modifies out
      ensures out[..] == HashBytes(hash[..])
    {
      hide WordBytes;
      for i := 0 to 8
        invariant out[..4 * i] == HashBytes(hash[..i])
      {
        var bytes := WordBytes(hash[i]);
        WordBytesLength(hash[i]);
        ghost var before := out[..4 * i];
        out[4 * i], out[4 * i + 1], out[4 * i + 2], out[4 * i + 3] := bytes[0], bytes[1], bytes[2], bytes[3];
        assert out[..4 * (i + 1)] == before + bytes;
        assert hash[..i + 1][..i] == hash[..i];
      }
      assert hash[..8] == hash[..] && out[..32] == out[..];
    }
  }

  const PADDING: seq<Byte> := [0x80] + seq(63, _ => 0)

  lemma WordBytesLength(w: bv32)
    ensures |WordBytes(w)| == 4
  {}

  /** Between 1 and 64 padding bytes bring the message up to the length field. */
  lemma PaddingParts(message: seq<Byte>, count: nat)
    requires var r := |message| % 64; count == if 120 - r > 64 then 56 - r else 120 - r
    ensures 1 <= count <= 64
    ensures message + PADDING[..count] + LengthBytes(8 * |message| % TWO64) == Pad(message)
  {
    assert count == 1 + ZeroBytes(|message|);
    assert PADDING[..count] == [0x80] + seq(ZeroBytes(|message|), _ => 0);
  }

  /** Counting bits modulo 2^64 piece by piece. */
  lemma LengthStep(a: nat, n: nat)
    ensures (8 * a % TWO64 + n * 8) % TWO64 == 8 * (a + n) % TWO64
  {}

  lemma RemainderOfBlocks(n: nat, rest: nat)
    requires n % 64 == 0 && rest < 64
    ensures (n + rest) % 64 == rest
  {}

  lemma HashBlocksStep(bytes: seq<Byte>, block: seq<Byte>)
    requires |bytes| % 64 == 0 && |block| == 64
    ensures |bytes + block| % 64 == 0 && HashBlocks(bytes + block) == Compress(HashBlocks(bytes), block)
  {
    hide Compress;
    assert (bytes + block)[..|bytes|] == bytes && (bytes + block)[|bytes|..] == block;
  }

  /** The rounds, four to an iteration, with one pointer each into the constants and the schedule. */
  method AllRounds(start: Working, buf: seq<bv32>, ghost block: seq<Byte>) returns (v: Working)
    requires |block| == 64 && |buf| == 64 && forall t :: 0 <= t < 64 ==> buf[t] == W(block, t)
    ensures v == Rounds(start, block, 64)
  {
    hide Plus, DoRound, W, Rounds;
    v := start;
    var kp, w, i := 0, 0, 15;
    RoundsZero(start, block);
    while i >= 0
      invariant -1 <= i <= 15 && w == 4 * (15 - i) && kp == w && v == Rounds(start, block, w)
    {
      RoundsStep(start, v, block, w);
      v, kp, w := DoRound(v, K[kp], buf[w]), kp + 1, w + 1;
      RoundsStep(start, v, block, w);
      v, kp, w := DoRound(v, K[kp], buf[w]), kp + 1, w + 1;
      RoundsStep(start, v, block, w);
      v, kp, w := DoRound(v, K[kp], buf[w]), kp + 1, w + 1;
      RoundsStep(start, v, block, w);
      v, kp, w := DoRound(v, K[kp], buf[w]), kp + 1, w + 1;
      i := i - 1;
    }
  }

  lemma RoundsZero(start: Working, block: seq<Byte>)
    requires |block| == 64
    ensures Rounds(start, block, 0) == start
  {}
}
