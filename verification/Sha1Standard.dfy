/** SHA-1 as FIPS 180-3 defines it: sections 4.1.1, 4.2.1, 5.1.1, 5.3.1 and 6.1.2. */
module Sha1Standard {
  import opened Bytes

  type word = bv32

  /** Addition modulo 2^32. */
  function Add(x: word, y: word): word {
    x + y
  }

  function Rotl(n: word, x: word): word
    requires n < 32
  {
    (x << n) | (x >> (32 - n))
  }

  function Ch(x: word, y: word, z: word): word {
    (x & y) ^ (!x & z)
  }

  function Parity(x: word, y: word, z: word): word {
    x ^ y ^ z
  }

  function Maj(x: word, y: word, z: word): word {
    (x & y) ^ (x & z) ^ (y & z)
  }

  function F(t: nat, x: word, y: word, z: word): word {
    if t < 20 then Ch(x, y, z) else if t < 40 then Parity(x, y, z)
    else if t < 60 then Maj(x, y, z) else Parity(x, y, z)
  }

  function K(t: nat): word {
    if t < 20 then 0x5a827999 else if t < 40 then 0x6ed9eba1 else if t < 60 then 0x8f1bbcdc else 0xca62c1d6
  }

  function ShiftRight(x: word, n: word): word
    requires n < 32
  {
    x >> n
  }

  // Two of the rotations used: what is shifted out on the left comes in on the right.

  lemma RotlOne(x: word)
    ensures Rotl(1, x) == (x & 0x7fffffff) * 2 + ShiftRight(x, 31)
  {
  }

  lemma RotlFive(x: word)
    ensures Rotl(5, x) == (x & 0x07ffffff) * 32 + ShiftRight(x, 27)
  {
  }

  /** `k` is the integer part of the square root of `c` times 2^30. */
  predicate IsRoot(k: nat, c: nat) {
    k * k <= c * 0x1000_0000_0000_0000 < (k + 1) * (k + 1)
  }

  /** The constants are the square roots of 2, 3, 5 and 10, as numbers of 30 binary places. */
  lemma KRoots(t: nat)
    requires t < 80
    ensures IsRoot(K(t) as nat, if t < 20 then 2 else if t < 40 then 3 else if t < 60 then 5 else 10)
  {
    if t < 20 {
      assert K(t) as nat == 1518500249;
    } else if t < 40 {
      assert K(t) as nat == 1859775393;
    } else if t < 60 {
      assert K(t) as nat == 2400959708;
    } else {
      assert K(t) as nat == 3395469782;
    }
  }

  /** Four bytes as a big-endian word. */
  function Word(a: byte, b: byte, c: byte, d: byte): word {
    (a as word << 24) | (b as word << 16) | (c as word << 8) | d as word
  }

  /** The first `n` words of the message schedule of a 64-byte block. */
  function Schedule(block: seq<byte>, n: nat): (w: seq<word>)
    requires |block| == 64
    ensures |w| == n
  {
    if n == 0 then []
    else
      var w, t := Schedule(block, n - 1), n - 1;
      w + [if t < 16 then Word(block[4 * t], block[4 * t + 1], block[4 * t + 2], block[4 * t + 3])
           else Rotl(1, w[t - 3] ^ w[t - 8] ^ w[t - 14] ^ w[t - 16])]
  }

  datatype State = State(a: word, b: word, c: word, d: word, e: word)

  /** Round `t` on the working variables, with schedule word `w`. */
  function Round(v: State, w: word, t: nat): State {
    var temp := Add(Add(Add(Add(Rotl(5, v.a), F(t, v.b, v.c, v.d)), v.e), w), K(t));
    State(temp, v.a, Rotl(30, v.b), v.c, v.d)
  }

  /** The working variables after `n` rounds. */
  function Rounds(s: State, block: seq<byte>, n: nat): State
    requires |block| == 64 && n <= 80
  {
    if n == 0 then s else Round(Rounds(s, block, n - 1), Schedule(block, 80)[n - 1], n - 1)
  }

  function Sum(h: State, v: State): State {
    State(Add(h.a, v.a), Add(h.b, v.b), Add(h.c, v.c), Add(h.d, v.d), Add(h.e, v.e))
  }

  function Compress(h: State, block: seq<byte>): State
    requires |block| == 64
  {
    Sum(h, Rounds(h, block, 80))
  }

  const INITIAL := State(0x67452301, 0xefcdab89, 0x98badcfe, 0x10325476, 0xc3d2e1f0)

  /** The hash value after all blocks of `m`. */
  function Fold(m: seq<byte>): State
    requires |m| % 64 == 0
  {
    if m == [] then INITIAL else Compress(Fold(m[..|m| - 64]), m[|m| - 64..])
  }

  function Zeros(n: nat): seq<byte> {
    seq(n, _ => 0)
  }

  /** The smallest number of zero bytes that makes the padded length 56 modulo 64. */
  function ZeroCount(n: nat): (k: nat)
    ensures k < 64 && (n + 1 + k + 8) % 64 == 0
  {
    var c := n % 64;
    if c < 56 then 55 - c else 119 - c
  }

  function Padded(m: seq<byte>): (p: seq<byte>)
    ensures |p| % 64 == 0
  {
    var k := ZeroCount(|m|);
    var p := m + [0x80] + Zeros(k) + Digits(8 * |m|, 8);
    assert |p| == |m| + 1 + k + 8;
    p
  }

  function WordBytes(x: word): (s: seq<byte>)
    ensures |s| == 4
  {
    [(x >> 24) as byte, ((x >> 16) & 0xFF) as byte, ((x >> 8) & 0xFF) as byte, (x & 0xFF) as byte]
  }

  function StateBytes(h: State): (s: seq<byte>)
    ensures |s| == 20
  {
    WordBytes(h.a) + WordBytes(h.b) + WordBytes(h.c) + WordBytes(h.d) + WordBytes(h.e)
  }

  /** The 20-byte digest of a message. */
  function Hash(m: seq<byte>): (d: seq<byte>)
    ensures |d| == 20
  {
    StateBytes(Fold(Padded(m)))
  }
}
