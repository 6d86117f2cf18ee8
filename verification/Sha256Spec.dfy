/** SHA-256 as FIPS 180-4 defines it, on messages of whole bytes. */
module Sha256Spec {
  type Byte = bv8

  // ----- Section 4.1.2: functions

  /** Addition modulo 2^32 (section 3.2). */
  function Plus(x: bv32, y: bv32): bv32 { x + y }

  function Ch(x: bv32, y: bv32, z: bv32): bv32 { (x & y) ^ (!x & z) }

  function Maj(x: bv32, y: bv32, z: bv32): bv32 { (x & y) ^ (x & z) ^ (y & z) }

  /** Rotation to the right by n and by 32 - n to the left; n is one of the constants below. */
  function RotR(x: bv32, n: bv32): bv32
    requires 0 < n < 32
  {
    (x >> n) | (x << (32 - n))
  }

  function ShR(x: bv32, n: bv32): bv32
    requires n < 32
  {
    x >> n
  }

  function Xor(x: bv32, y: bv32): bv32 { x ^ y }

  function BigSigma0(x: bv32): bv32 { Xor(Xor(RotR(x, 2), RotR(x, 13)), RotR(x, 22)) }

  function BigSigma1(x: bv32): bv32 { Xor(Xor(RotR(x, 6), RotR(x, 11)), RotR(x, 25)) }

  function Sigma0(x: bv32): bv32 { Xor(Xor(RotR(x, 7), RotR(x, 18)), ShR(x, 3)) }

  function Sigma1(x: bv32): bv32 { Xor(Xor(RotR(x, 17), RotR(x, 19)), ShR(x, 10)) }

  // ----- Section 4.2.2: constants

  type Words64 = s: seq<bv32> | |s| == 64 witness seq(64, _ => 0)

  const K: Words64 := [
    0x428a2f98, 0x71374491, 0xb5c0fbcf, 0xe9b5dba5, 0x3956c25b, 0x59f111f1, 0x923f82a4, 0xab1c5ed5,
    0xd807aa98, 0x12835b01, 0x243185be, 0x550c7dc3, 0x72be5d74, 0x80deb1fe, 0x9bdc06a7, 0xc19bf174
  ] + [
    0xe49b69c1, 0xefbe4786, 0x0fc19dc6, 0x240ca1cc, 0x2de92c6f, 0x4a7484aa, 0x5cb0a9dc, 0x76f988da,
    0x983e5152, 0xa831c66d, 0xb00327c8, 0xbf597fc7, 0xc6e00bf3, 0xd5a79147, 0x06ca6351, 0x14292967
  ] + [
    0x27b70a85, 0x2e1b2138, 0x4d2c6dfc, 0x53380d13, 0x650a7354, 0x766a0abb, 0x81c2c92e, 0x92722c85,
    0xa2bfe8a1, 0xa81a664b, 0xc24b8b70, 0xc76c51a3, 0xd192e819, 0xd6990624, 0xf40e3585, 0x106aa070
  ] + [
    0x19a4c116, 0x1e376c08, 0x2748774c, 0x34b0bcb5, 0x391c0cb3, 0x4ed8aa4a, 0x5b9cca4f, 0x682e6ff3,
    0x748f82ee, 0x78a5636f, 0x84c87814, 0x8cc70208, 0x90befffa, 0xa4506ceb, 0xbef9a3f7, 0xc67178f2
  ]

  // ----- Section 5.3.3: initial hash value

  type HashValue = s: seq<bv32> | |s| == 8 witness [0, 0, 0, 0, 0, 0, 0, 0]

  const H0: HashValue := [
    0x6a09e667, 0xbb67ae85, 0x3c6ef372, 0xa54ff53a, 0x510e527f, 0x9b05688c, 0x1f83d9ab, 0x5be0cd19
  ]

  // ----- Section 6.2.2: hash computation

  /** Four bytes as a word, most significant first (section 3.1). */
  function WordAt(block: seq<Byte>, t: nat): bv32
    requires |block| == 64 && t < 16
  {
    BigEndian(block[4 * t], block[4 * t + 1], block[4 * t + 2], block[4 * t + 3])
  }

  function BigEndian(b0: Byte, b1: Byte, b2: Byte, b3: Byte): bv32 {
    ((b0 as bv32) << 24) | ((b1 as bv32) << 16) | ((b2 as bv32) << 8) | (b3 as bv32)
  }

  function ScheduleWord(w2: bv32, w7: bv32, w15: bv32, w16: bv32): bv32 {
    Plus(Plus(Plus(Sigma1(w2), w7), Sigma0(w15)), w16)
  }

  /** The message schedule: word t of a block. */
  function W(block: seq<Byte>, t: nat): bv32
    requires |block| == 64
  {
    if t < 16 then WordAt(block, t)
    else ScheduleWord(W(block, t - 2), W(block, t - 7), W(block, t - 15), W(block, t - 16))
  }

  /** The eight working variables. */
  datatype Working = Working(a: bv32, b: bv32, c: bv32, d: bv32, e: bv32, f: bv32, g: bv32, h: bv32)

  function Round(v: Working, k: bv32, w: bv32): Working {
    var t1 := Plus(Plus(Plus(Plus(v.h, BigSigma1(v.e)), Ch(v.e, v.f, v.g)), k), w);
    var t2 := Plus(BigSigma0(v.a), Maj(v.a, v.b, v.c));
    Working(Plus(t1, t2), v.a, v.b, v.c, Plus(v.d, t1), v.e, v.f, v.g)
  }

  function Rounds(v: Working, block: seq<Byte>, t: nat): Working
    requires |block| == 64 && t <= 64
  {
    if t == 0 then v else Round(Rounds(v, block, t - 1), K[t - 1], W(block, t - 1))
  }

  function Load(hash: HashValue): Working {
    Working(hash[0], hash[1], hash[2], hash[3], hash[4], hash[5], hash[6], hash[7])
  }

  function AddWorking(hash: HashValue, v: Working): HashValue {
    [Plus(hash[0], v.a), Plus(hash[1], v.b), Plus(hash[2], v.c), Plus(hash[3], v.d),
     Plus(hash[4], v.e), Plus(hash[5], v.f), Plus(hash[6], v.g), Plus(hash[7], v.h)]
  }

  function Compress(hash: HashValue, block: seq<Byte>): HashValue
    requires |block| == 64
  {
    AddWorking(hash, Rounds(Load(hash), block, 64))
  }

  /** The hash value after all blocks of bytes. */
  function HashBlocks(bytes: seq<Byte>): HashValue
    requires |bytes| % 64 == 0
  {
    if bytes == [] then H0
    else Compress(HashBlocks(bytes[..|bytes| - 64]), bytes[|bytes| - 64..])
  }

  // ----- Section 5.1.1: padding

  function WordBytes(w: bv32): seq<Byte> {
    [((w >> 24) & 0xff) as Byte, ((w >> 16) & 0xff) as Byte, ((w >> 8) & 0xff) as Byte, (w & 0xff) as Byte]
  }

  const TWO32 := 0x1_0000_0000
  const TWO64 := 0x1_0000_0000_0000_0000

  /** A 64-bit number, most significant byte first. */
  function LengthBytes(bits: nat): seq<Byte>
    requires bits < TWO64
  {
    WordBytes((bits / TWO32) as bv32) + WordBytes((bits % TWO32) as bv32)
  }

  /** The number of zero bytes after the 0x80 byte. */
  function ZeroBytes(length: nat): nat {
    var r := length % 64;
    if r < 56 then 55 - r else 119 - r
  }

  /** They leave room for exactly the length field in the last block. */
  lemma ZeroBytesFit(length: nat)
    ensures (length + 1 + ZeroBytes(length)) % 64 == 56 && ZeroBytes(length) < 64
  {
    var q, r := length / 64, length % 64;
    assert length + 1 + ZeroBytes(length) == (if r < 56 then 64 * q else 64 * (q + 1)) + 56;
  }

  /** And no smaller number does. */
  lemma ZeroBytesLeast(length: nat, k: nat)
    requires (length + 1 + k) % 64 == 56
    ensures ZeroBytes(length) <= k
  {
    hide ZeroBytes;
    var z := ZeroBytes(length);
    ZeroBytesFit(length);
    var p, q := (length + 1 + k) / 64, (length + 1 + z) / 64;
    assert z - k == 64 * (q - p);
  }

  /** The standard covers messages of less than 2^64 bits; longer ones wrap the length field. */
  function Pad(message: seq<Byte>): seq<Byte> {
    message + [0x80] + seq(ZeroBytes(|message|), _ => 0) + LengthBytes(8 * |message| % TWO64)
  }

  lemma PadLength(message: seq<Byte>)
    ensures |Pad(message)| % 64 == 0
  {
    hide ZeroBytes, LengthBytes;
    ZeroBytesFit(|message|);
    LengthBytesLength(8 * |message| % TWO64);
    var n := |message| + 1 + ZeroBytes(|message|);
    assert n + 8 == 64 * (n / 64 + 1);
  }

  lemma LengthBytesLength(bits: nat)
    requires bits < TWO64
    ensures |LengthBytes(bits)| == 8
  {}

  function HashBytes(hash: seq<bv32>): seq<Byte> {
    if hash == [] then [] else HashBytes(hash[..|hash| - 1]) + WordBytes(hash[|hash| - 1])
  }

  function Sha256(message: seq<Byte>): seq<Byte> {
    PadLength(message);
    HashBytes(HashBlocks(Pad(message)))
  }
}
