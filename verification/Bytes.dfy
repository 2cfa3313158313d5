/** Bytes, and the big-endian numbers made of them. */
module Bytes {
  type byte = bv8

  function Nibble(n: nat): (b: bv4)
    requires n < 16
    ensures b as nat == n
  {
    n as bv4
  }

  function Pair(high: bv4, low: bv4): (b: byte)
    ensures (b >> 4) as bv4 == high && (b & 0x0F) as bv4 == low
  {
    (high as byte << 4) | low as byte
  }

  /** A byte as a number. */
  function Value(b: byte): (n: nat)
    ensures n < 256
  {
    ((b >> 4) as bv4) as nat * 16 + ((b & 0x0F) as bv4) as nat
  }

  /** The number `n` cut down to a byte. */
  function ToByte(n: nat): (b: byte)
    ensures Value(b) == n % 256
  {
    Pair(Nibble(n % 256 / 16), Nibble(n % 16))
  }

  /** It is the number that the byte is. */
  lemma ValueIsNumber(b: byte)
    ensures Value(b) == b as nat
  {
  }

  /** Counting the bytes counts the numbers. */
  lemma ValueCounts(b: byte)
    ensures Value(0) == 0 && Value(255) == 255
    ensures b < 255 ==> Value(b + 1) == Value(b) + 1
  {
  }

  lemma SameNumber(a: byte, b: byte)
    requires a as nat == b as nat
    ensures a == b
  {
  }

  /** The byte made of a number is that number modulo 256. */
  lemma ToByteIsNumber(n: nat, b: byte)
    requires b as nat == n % 256
    ensures ToByte(n) == b
  {
    ValueIsNumber(ToByte(n));
    SameNumber(ToByte(n), b);
  }

  /** The number whose big-endian digits to the base 256 are `s`. */
  function BigEndian(s: seq<byte>): nat {
    if s == [] then 0 else BigEndian(s[..|s| - 1]) * 256 + Value(s[|s| - 1])
  }

  /** The `k` low-order bytes of `n`, most significant first. */
  function Digits(n: nat, k: nat): (s: seq<byte>)
    ensures |s| == k
  {
    if k == 0 then [] else Digits(n / 256, k - 1) + [ToByte(n)]
  }

  function Power256(k: nat): nat {
    if k == 0 then 1 else 256 * Power256(k - 1)
  }

  lemma {:induction false} DigitsBigEndian(n: nat, k: nat)
    requires n < Power256(k)
    ensures BigEndian(Digits(n, k)) == n
  {
    if k == 0 {
    } else {
      DigitsBigEndian(n / 256, k - 1);
      var s := Digits(n, k);
      assert s[..|s| - 1] == Digits(n / 256, k - 1);
    }
  }

  const TWO32 := 0x1_0000_0000

  lemma SameByte(m: nat, n: nat)
    requires m % 256 == n % 256
    ensures ToByte(m) == ToByte(n)
  {
  }

  lemma FourDigits(n: nat, a: nat, b: nat, c: nat, k: nat)
    requires a == n / 256 && b == a / 256 && c == b / 256
    ensures Digits(n, k + 4) == Digits(c / 256, k) + [ToByte(c), ToByte(b), ToByte(a), ToByte(n)]
  {
    assert Digits(n, k + 4) == Digits(a, k + 3) + [ToByte(n)];
    assert Digits(a, k + 3) == Digits(b, k + 2) + [ToByte(a)];
    assert Digits(b, k + 2) == Digits(c, k + 1) + [ToByte(b)];
    assert Digits(c, k + 1) == Digits(c / 256, k) + [ToByte(c)];
  }

  lemma LowHalf(n: nat, a: nat, b: nat, c: nat, m: nat, a': nat, b': nat, c': nat)
    requires a == n / 256 && b == a / 256 && c == b / 256
    requires m == n % TWO32 && a' == m / 256 && b' == a' / 256 && c' == b' / 256
    ensures m % 256 == n % 256 && a' % 256 == a % 256 && b' % 256 == b % 256 && c' % 256 == c % 256
    ensures c / 256 == n / TWO32
  {
    var q, r0, r1, r2, r3 := c / 256, n % 256, a % 256, b % 256, c % 256;
    var low := 0x100_0000 * r3 + 0x1_0000 * r2 + 0x100 * r1 + r0;
    assert n == TWO32 * q + low && 0 <= low < TWO32;
    assert q == n / TWO32 && m == low;
    assert a' == 0x1_0000 * r3 + 0x100 * r2 + r1;
    assert b' == 0x100 * r3 + r2;
    assert c' == r3;
  }

  /** Eight digits are four of the high half and four of the low half. */
  lemma EightDigits(n: nat)
    ensures Digits(n, 8) == Digits(n / TWO32, 4) + Digits(n % TWO32, 4)
  {
    var m := n % TWO32;
    var a, a' := n / 256, m / 256;
    var b, b' := a / 256, a' / 256;
    var c, c' := b / 256, b' / 256;
    LowHalf(n, a, b, c, m, a', b', c');
    FourDigits(n, a, b, c, 4);
    FourDigits(m, a', b', c', 0);
    SameByte(m, n);
    SameByte(a', a);
    SameByte(b', b);
    SameByte(c', c);
  }

  lemma {:induction false} BigEndianZeros(k: nat)
    ensures BigEndian(seq(k, _ => 0)) == 0
  {
    if k == 0 {
    } else {
      var z: seq<byte> := seq(k, _ => 0);
      assert z[..k - 1] == seq(k - 1, _ => 0);
      BigEndianZeros(k - 1);
    }
  }

  lemma {:induction false} DigitsOfZero(k: nat)
    ensures Digits(0, k) == seq(k, _ => 0)
  {
    if k == 0 {
    } else {
      DigitsOfZero(k - 1);
    }
  }

  lemma Associates<T>(a: seq<T>, b: seq<T>, c: seq<T>)
    ensures a + b + c == a + (b + c)
  {
  }

  function Flatten(ss: seq<seq<byte>>): seq<byte> {
    if ss == [] then [] else Flatten(ss[..|ss| - 1]) + ss[|ss| - 1]
  }

  lemma FlattenAppend(ss: seq<seq<byte>>, s: seq<byte>)
    ensures Flatten(ss + [s]) == Flatten(ss) + s
  {
    assert (ss + [s])[..|ss|] == ss;
  }

  lemma {:induction false} FlattenPrefix(ss: seq<seq<byte>>, k: nat)
    requires k <= |ss|
    ensures Flatten(ss[..k]) <= Flatten(ss)
    decreases |ss|
  {
    if k < |ss| {
      FlattenPrefix(ss[..|ss| - 1], k);
      assert ss[..|ss| - 1][..k] == ss[..k];
    } else {
      assert ss[..k] == ss;
    }
  }
}
