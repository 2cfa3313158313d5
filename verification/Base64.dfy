/** Base64 as `src/base64.cpp` writes and reads it, against section 4 of RFC 4648. */
module Base64 {
  import opened Bytes

  const PAD: byte := 61

  /** The alphabet `basis_64`. */
  function Symbol(n: byte): byte {
    if n < 26 then n + 65 else if n < 52 then n + 71 else if n < 62 then n - 4 else if n == 62 then 43 else 47
  }

  /** The table `pr2six`: the place of a character in the alphabet, or 64. */
  function SixBits(c: byte): byte {
    if 65 <= c <= 90 then c - 65 else if 97 <= c <= 122 then c - 71 else if 48 <= c <= 57 then c + 4
    else if c == 43 then 62 else if c == 47 then 63 else 64
  }

  predicate InAlphabet(c: byte) {
    SixBits(c) <= 63
  }

  lemma SymbolSixBits(n: byte)
    requires n <= 63
    ensures SixBits(Symbol(n)) == n
  {
  }

  /** The alphabet is A-Z, a-z, 0-9, + and /, in this order, and = is the padding. */
  lemma Alphabet(n: byte)
    requires n <= 63
    ensures n <= 25 ==> Symbol(n) as nat == 'A' as nat + n as nat
    ensures 26 <= n <= 51 ==> Symbol(n) as nat == 'a' as nat + n as nat - 26
    ensures 52 <= n <= 61 ==> Symbol(n) as nat == '0' as nat + n as nat - 52
    ensures Symbol(62) as nat == '+' as nat && Symbol(63) as nat == '/' as nat && PAD as nat == '=' as nat
  {
  }

  /** The table knows no other characters. */
  lemma OnlyAlphabet(c: byte)
    requires InAlphabet(c)
    ensures Symbol(SixBits(c)) == c
  {
  }

  // ---------- the standard: 24-bit groups ----------

  function Group(a: byte, b: byte, c: byte): bv24 {
    (a as bv24 << 16) | (b as bv24 << 8) | c as bv24
  }

  function Sextet0(g: bv24): byte { ((g >> 18) & 0x3F) as byte }
  function Sextet1(g: bv24): byte { ((g >> 12) & 0x3F) as byte }
  function Sextet2(g: bv24): byte { ((g >> 6) & 0x3F) as byte }
  function Sextet3(g: bv24): byte { (g & 0x3F) as byte }

  /** The four characters of a group, by its four sextets. */
  function Quad(g: bv24): seq<byte> {
    [Symbol(Sextet0(g)), Symbol(Sextet1(g)), Symbol(Sextet2(g)), Symbol(Sextet3(g))]
  }

  /** Section 4 of RFC 4648: three bytes make four characters; a last group of one or two bytes is
      filled with zero bits and padded. */
  function Encode(s: seq<byte>): (r: seq<byte>)
    ensures |r| == (|s| + 2) / 3 * 4
  {
    if |s| == 0 then []
    else if |s| == 1 then Quad(Group(s[0], 0, 0))[..2] + [PAD, PAD]
    else if |s| == 2 then Quad(Group(s[0], s[1], 0))[..3] + [PAD]
    else Quad(Group(s[0], s[1], s[2])) + Encode(s[3..])
  }

  /** Four sextets as a group. */
  function Ungroup(a: byte, b: byte, c: byte, d: byte): bv24 {
    (a as bv24 << 18) | (b as bv24 << 12) | (c as bv24 << 6) | d as bv24
  }

  function Triple(g: bv24): seq<byte> {
    [((g >> 16) & 0xFF) as byte, ((g >> 8) & 0xFF) as byte, (g & 0xFF) as byte]
  }

  /** The bytes behind characters of the alphabet; a single left-over character is ignored. */
  function Decode(t: seq<byte>): (r: seq<byte>)
    ensures |r| == |t| / 4 * 3 + (if |t| % 4 == 0 then 0 else |t| % 4 - 1)
  {
    if |t| <= 1 then []
    else if |t| == 2 then Triple(Ungroup(SixBits(t[0]), SixBits(t[1]), 0, 0))[..1]
    else if |t| == 3 then Triple(Ungroup(SixBits(t[0]), SixBits(t[1]), SixBits(t[2]), 0))[..2]
    else Triple(Ungroup(SixBits(t[0]), SixBits(t[1]), SixBits(t[2]), SixBits(t[3]))) + Decode(t[4..])
  }

  /** The characters before the first one outside the alphabet. */
  function Prefix(t: seq<byte>): (p: seq<byte>)
    ensures |p| <= |t| && p == t[..|p|]
    ensures forall i :: 0 <= i < |p| ==> InAlphabet(t[i])
    ensures |p| < |t| ==> !InAlphabet(t[|p|])
  {
    if t == [] || !InAlphabet(t[0]) then [] else [t[0]] + Prefix(t[1..])
  }

  // ---------- round trip ----------

  lemma SextetsSmall(g: bv24)
    ensures Sextet0(g) <= 63 && Sextet1(g) <= 63 && Sextet2(g) <= 63 && Sextet3(g) <= 63
  {
  }

  lemma SextetsUngroup(g: bv24)
    ensures Ungroup(Sextet0(g), Sextet1(g), Sextet2(g), Sextet3(g)) == g
  {
  }

  lemma GroupTriple(a: byte, b: byte, c: byte)
    ensures Triple(Group(a, b, c)) == [a, b, c]
  {
  }

  lemma ZeroSextets(a: byte, b: byte)
    ensures Sextet3(Group(a, b, 0)) == 0
    ensures Sextet2(Group(a, 0, 0)) == 0
  {
  }

  /** The characters of a group lead back to its sextets. */
  lemma QuadSixBits(g: bv24)
    ensures var q := Quad(g);
            && InAlphabet(q[0]) && InAlphabet(q[1]) && InAlphabet(q[2]) && InAlphabet(q[3])
            && SixBits(q[0]) == Sextet0(g) && SixBits(q[1]) == Sextet1(g)
            && SixBits(q[2]) == Sextet2(g) && SixBits(q[3]) == Sextet3(g)
  {
    SextetsSmall(g);
    SymbolSixBits(Sextet0(g));
    SymbolSixBits(Sextet1(g));
    SymbolSixBits(Sextet2(g));
    SymbolSixBits(Sextet3(g));
  }

  lemma GroupTrip(a: byte, b: byte, c: byte)
    ensures var q := Quad(Group(a, b, c));
            Triple(Ungroup(SixBits(q[0]), SixBits(q[1]), SixBits(q[2]), SixBits(q[3]))) == [a, b, c]
  {
    QuadSixBits(Group(a, b, c));
    SextetsUngroup(Group(a, b, c));
    GroupTriple(a, b, c);
  }

  lemma {:induction false} PrefixPast(q: seq<byte>, e: seq<byte>)
    requires forall i :: 0 <= i < |q| ==> InAlphabet(q[i])
    ensures Prefix(q + e) == q + Prefix(e)
  {
    if q == [] {
      assert q + e == e;
    } else {
      assert (q + e)[1..] == q[1..] + e;
      PrefixPast(q[1..], e);
    }
  }

  lemma PrefixStops(q: seq<byte>, e: seq<byte>)
    requires forall i :: 0 <= i < |q| ==> InAlphabet(q[i])
    requires e == [] || !InAlphabet(e[0])
    ensures Prefix(q + e) == q
  {
    PrefixPast(q, e);
  }

  lemma TailTrip(s: seq<byte>, rest: seq<byte>)
    requires 1 <= |s| <= 2
    ensures Decode(Prefix(Encode(s) + rest)) == s
  {
    var b := if |s| == 1 then 0 else s[1];
    var g := Group(s[0], b, 0);
    QuadSixBits(g);
    GroupTrip(s[0], b, 0);
    ZeroSextets(s[0], b);
    var q := Quad(g)[..|s| + 1];
    var e := (if |s| == 1 then [PAD, PAD] else [PAD]) + rest;
    assert Encode(s) + rest == q + e;
    PrefixStops(q, e);
  }

  lemma DecodeQuad(q: seq<byte>, e: seq<byte>)
    requires |q| == 4
    ensures Decode(q + e) ==
            Triple(Ungroup(SixBits(q[0]), SixBits(q[1]), SixBits(q[2]), SixBits(q[3]))) + Decode(e)
  {
    assert (q + e)[4..] == e;
  }

  lemma EncodeQuad(s: seq<byte>, rest: seq<byte>)
    requires 3 <= |s|
    ensures Encode(s) + rest == Quad(Group(s[0], s[1], s[2])) + (Encode(s[3..]) + rest)
  {
    Associates(Quad(Group(s[0], s[1], s[2])), Encode(s[3..]), rest);
  }

  lemma QuadFirst(s: seq<byte>, q: seq<byte>, e: seq<byte>)
    requires 3 <= |s| && |q| == 4 && forall i :: 0 <= i < |q| ==> InAlphabet(q[i])
    requires Triple(Ungroup(SixBits(q[0]), SixBits(q[1]), SixBits(q[2]), SixBits(q[3]))) == s[..3]
    requires Decode(Prefix(e)) == s[3..]
    ensures Decode(Prefix(q + e)) == s
  {
    PrefixPast(q, e);
    DecodeQuad(q, Prefix(e));
  }

  lemma LongTrip(s: seq<byte>, rest: seq<byte>)
    requires 3 <= |s| && Decode(Prefix(Encode(s[3..]) + rest)) == s[3..]
    ensures Decode(Prefix(Encode(s) + rest)) == s
  {
    var g := Group(s[0], s[1], s[2]);
    EncodeQuad(s, rest);
    QuadSixBits(g);
    GroupTrip(s[0], s[1], s[2]);
    QuadFirst(s, Quad(g), Encode(s[3..]) + rest);
  }

  /** What follows the first character outside the alphabet does not matter, and without its
      padding the encoding of `s` decodes to `s`. */
  lemma {:induction false} RoundTrip(s: seq<byte>, rest: seq<byte>)
    requires rest == [] || !InAlphabet(rest[0])
    ensures Decode(Prefix(Encode(s) + rest)) == s
  {
    if s == [] {
      assert Encode(s) + rest == rest;
    } else if |s| <= 2 {
      TailTrip(s, rest);
    } else {
      RoundTrip(s[3..], rest);
      LongTrip(s, rest);
    }
  }

  /** The text can be ended by a NUL. */
  lemma {:induction false} EncodeNoZero(s: seq<byte>)
    ensures 0 !in Encode(s)
  {
    if s == [] {
    } else {
      var b, c := if |s| > 1 then s[1] else 0, if |s| > 2 then s[2] else 0;
      QuadSixBits(Group(s[0], b, c));
      assert !InAlphabet(0);
      if |s| >= 3 {
        EncodeNoZero(s[3..]);
      }
    }
  }

  // ---------- the code ----------

  /** The four lookups of the main loop of `Base64encode` on three bytes. */
  lemma CodeSextets(a: byte, b: byte, c: byte)
    ensures var g := Group(a, b, c);
            && Sextet0(g) == ((a >> 2) & 0x3F)
            && Sextet1(g) == (((a & 0x3) << 4) | ((b & 0xF0) >> 4))
            && Sextet2(g) == (((b & 0xF) << 2) | ((c & 0xC0) >> 6))
            && Sextet3(g) == (c & 0x3F)
  {
  }

  lemma CodeTail(a: byte, b: byte)
    ensures (((a & 0x3) << 4) | ((0 & 0xF0) >> 4)) == (a & 0x3) << 4
    ensures (((b & 0xF) << 2) | ((0 & 0xC0) >> 6)) == (b & 0xF) << 2
  {
  }

  lemma {:induction false} EncodeAppend(a: seq<byte>, b: seq<byte>)
    requires |a| % 3 == 0
    ensures Encode(a + b) == Encode(a) + Encode(b)
  {
    if a == [] {
      assert a + b == b;
    } else {
      assert (a + b)[3..] == a[3..] + b;
      EncodeAppend(a[3..], b);
      EncodeQuad(a, Encode(b));
    }
  }

  /** The characters of a last group of one or two bytes, or of a whole one. */
  lemma EncodeGroup(t: seq<byte>)
    requires 1 <= |t| <= 3
    ensures var b, c := if |t| > 1 then t[1] else 0, if |t| > 2 then t[2] else 0;
            var q := Quad(Group(t[0], b, c));
            Encode(t) == [q[0], q[1], if |t| > 1 then q[2] else PAD, if |t| > 2 then q[3] else PAD]
  {
  }

  lemma {:induction false} DecodeAppend(a: seq<byte>, b: seq<byte>)
    requires |a| % 4 == 0
    ensures Decode(a + b) == Decode(a) + Decode(b)
  {
    if a == [] {
      assert a + b == b;
    } else {
      assert (a + b)[4..] == a[4..] + b;
      DecodeAppend(a[4..], b);
    }
  }

  /** `Base64encode_len`. */
  function EncodeLength(len: nat): nat {
    (len + 2) / 3 * 4 + 1
  }

  // The lookups `Base64encode` makes for its input bytes.
  function Char0(a: byte): byte { Symbol((a >> 2) & 0x3F) }
  function Char1(a: byte, b: byte): byte { Symbol(((a & 0x3) << 4) | ((b & 0xF0) >> 4)) }
  function Char1Last(a: byte): byte { Symbol((a & 0x3) << 4) }
  function Char2(b: byte, c: byte): byte { Symbol(((b & 0xF) << 2) | ((c & 0xC0) >> 6)) }
  function Char2Last(b: byte): byte { Symbol((b & 0xF) << 2) }
  function Char3(c: byte): byte { Symbol(c & 0x3F) }

  lemma CodeGroup(a: byte, b: byte, c: byte)
    ensures Quad(Group(a, b, c)) == [Char0(a), Char1(a, b), Char2(b, c), Char3(c)]
  {
    CodeSextets(a, b, c);
  }

  lemma CodeLast(a: byte, b: byte)
    ensures Char1Last(a) == Char1(a, 0) && Char2Last(b) == Char2(b, 0)
  {
    CodeTail(a, b);
  }

  /** The four characters the code writes for a group of one to three bytes. */
  function CodeChars(t: seq<byte>): (r: seq<byte>)
    requires 1 <= |t| <= 3
    ensures |r| == 4
  {
    if |t| == 1 then [Char0(t[0]), Char1Last(t[0]), PAD, PAD]
    else if |t| == 2 then [Char0(t[0]), Char1(t[0], t[1]), Char2Last(t[1]), PAD]
    else [Char0(t[0]), Char1(t[0], t[1]), Char2(t[1], t[2]), Char3(t[2])]
  }

  /** They are those of the standard, in the main loop and in both tails. */
  lemma CodeEncodes(t: seq<byte>)
    requires 1 <= |t| <= 3
    ensures Encode(t) == CodeChars(t)
  {
    EncodeGroup(t);
    if |t| == 1 {
      CodeGroup(t[0], 0, 0);
      CodeLast(t[0], 0);
    } else if |t| == 2 {
      CodeGroup(t[0], t[1], 0);
      CodeLast(t[0], t[1]);
    } else {
      CodeGroup(t[0], t[1], t[2]);
    }
  }

  /** One round of the main loop of `Base64encode`, or its tail. */
  method PutGroup(encoded: array<byte>, p: nat, t: seq<byte>)
    requires p + 4 <= encoded.Length && 1 <= |t| <= 3
    modifies encoded
    ensures encoded[..] == old(encoded[..p]) + CodeChars(t) + old(encoded[p + 4..])
  {
    encoded[p] := Char0(t[0]);
    if |t| == 1 {
      encoded[p + 1] := Char1Last(t[0]);
      encoded[p + 2] := PAD;
      encoded[p + 3] := PAD;
    } else if |t| == 2 {
      encoded[p + 1] := Char1(t[0], t[1]);
      encoded[p + 2] := Char2Last(t[1]);
      encoded[p + 3] := PAD;
    } else {
      encoded[p + 1] := Char1(t[0], t[1]);
      encoded[p + 2] := Char2(t[1], t[2]);
      encoded[p + 3] := Char3(t[2]);
    }
  }

  lemma EncodeUpTo(s: seq<byte>, i: nat, j: nat)
    requires i < j <= |s| && j <= i + 3 && i % 3 == 0
    ensures Encode(s[..j]) == Encode(s[..i]) + CodeChars(s[i..j])
  {
    CodeEncodes(s[i..j]);
    EncodeAppend(s[..i], s[i..j]);
    assert s[..i] + s[i..j] == s[..j];
  }

  /** The group `text[i..j]` goes behind what is encoded so far. */
  method PutNext(encoded: array<byte>, p: nat, text: seq<byte>, i: nat, j: nat, ghost was: seq<byte>)
    requires i < j <= |text| && j <= i + 3 && i % 3 == 0 && p + 4 <= |was|
    requires |Encode(text[..i])| == p && encoded[..] == Encode(text[..i]) + was[p..]
    modifies encoded
    ensures encoded[..] == Encode(text[..j]) + was[p + 4..]
    ensures |Encode(text[..j])| == p + 4
  {
    ghost var done := Encode(text[..i]);
    EncodeUpTo(text, i, j);
    PutGroup(encoded, p, text[i..j]);
  }

  lemma GroupRoom(len: nat, k: nat)
    ensures 3 * k < len ==> 4 * k + 4 <= (len + 2) / 3 * 4
    ensures 3 * k == len ==> (len + 2) / 3 * 4 == 4 * k
    ensures 3 * k < len <= 3 * k + 3 ==> (len + 2) / 3 * 4 == 4 * k + 4
  {
  }

  /** The main loop of `Base64encode`. */
  method EncodeGroups(encoded: array<byte>, text: seq<byte>, ghost was: seq<byte>)
    returns (p: nat, i: nat, ghost k: nat)
    requires EncodeLength(|text|) <= encoded.Length && encoded[..] == was
    modifies encoded
    ensures |text| - 2 <= i <= |text| && i == 3 * k && p == 4 * k
    ensures |Encode(text[..i])| == p && encoded[..] == Encode(text[..i]) + was[p..]
  {
    var len := |text|;
    p, i, k := 0, 0, 0;
    while i < len - 2
      invariant 0 <= i <= len && i == 3 * k && p == 4 * k
      invariant |Encode(text[..i])| == p && encoded[..] == Encode(text[..i]) + was[p..]
    {
      GroupRoom(len, k);
      PutNext(encoded, p, text, i, i + 3, was);
      p, i, k := p + 4, i + 3, k + 1;
    }
  }

  method Terminate(buf: array<byte>, p: nat, ghost e: seq<byte>, ghost was: seq<byte>) returns (n: nat)
    requires |e| == p < |was| && buf[..] == e + was[p..]
    modifies buf
    ensures n == p + 1 && buf[..] == e + [0] + was[n..]
  {
    buf[p] := 0;
    n := p + 1;
  }

  /** `Base64encode`. */
  method Base64encode(encoded: array<byte>, text: seq<byte>) returns (n: nat)
    requires EncodeLength(|text|) <= encoded.Length
    modifies encoded
    ensures n == EncodeLength(|text|)
    ensures encoded[..] == Encode(text) + [0] + old(encoded[n..])
  {
    ghost var was := encoded[..];
    var p, i, k := EncodeGroups(encoded, text, was);
    assert text[..|text|] == text;
    GroupRoom(|text|, k);
    if i < |text| {
      PutNext(encoded, p, text, i, |text|, was);
      p := p + 4;
    }
    n := Terminate(encoded, p, Encode(text), was);
  }

  lemma PrefixEnds(t: seq<byte>, i: nat)
    requires i <= |Prefix(t)| < |t|
    ensures InAlphabet(t[i]) <==> i < |Prefix(t)|
  {
  }

  /** The scan for the first character outside the alphabet; it must exist, as the terminating NUL. */
  method CountSymbols(bufcoded: seq<byte>) returns (n: nat)
    requires |Prefix(bufcoded)| < |bufcoded|
    ensures n == |Prefix(bufcoded)|
  {
    var bufin := 0;
    PrefixEnds(bufcoded, bufin);
    while SixBits(bufcoded[bufin]) <= 63
      invariant 0 <= bufin <= |Prefix(bufcoded)|
      invariant InAlphabet(bufcoded[bufin]) <==> bufin < |Prefix(bufcoded)|
      decreases |bufcoded| - bufin
    {
      bufin := bufin + 1;
      PrefixEnds(bufcoded, bufin);
    }
    n := bufin;
  }

  /** `Base64decode_len`: room for whole groups and a NUL. */
  function DecodeLength(n: nat): nat {
    (n + 3) / 4 * 3 + 1
  }

  /** Three bytes for every four characters begun, and one. */
  lemma DecodeLengthIs(n: nat)
    ensures exists g: nat :: DecodeLength(n) == 3 * g + 1 && 4 * g < n + 4 <= 4 * g + 4
  {
    var g := (n + 3) / 4;
    assert DecodeLength(n) == 3 * g + 1 && 4 * g < n + 4 <= 4 * g + 4;
  }

  method Base64decode_len(bufcoded: seq<byte>) returns (n: nat)
    requires |Prefix(bufcoded)| < |bufcoded|
    ensures n == DecodeLength(|Prefix(bufcoded)|)
    ensures |Decode(Prefix(bufcoded))| + 1 <= n
  {
    var nprbytes := CountSymbols(bufcoded);
    n := (nprbytes + 3) / 4 * 3 + 1;
  }

  // The bytes `Base64decode` makes of two neighbouring characters.
  function Byte0(x: byte, y: byte): byte { (SixBits(x) << 2) | (SixBits(y) >> 4) }
  function Byte1(y: byte, z: byte): byte { (SixBits(y) << 4) | (SixBits(z) >> 2) }
  function Byte2(z: byte, w: byte): byte { (SixBits(z) << 6) | SixBits(w) }

  lemma BytesOfSextets(a: byte, b: byte, c: byte, d: byte)
    requires a <= 63 && b <= 63 && c <= 63 && d <= 63
    ensures Triple(Ungroup(a, b, c, d)) == [(a << 2) | (b >> 4), (b << 4) | (c >> 2), (c << 6) | d]
  {
  }

  /** The bytes the code writes for a group of one to four characters. */
  function CodeBytes(t: seq<byte>): (r: seq<byte>)
    requires 1 <= |t| <= 4
    ensures |r| == |t| - 1
  {
    (if |t| > 1 then [Byte0(t[0], t[1])] else [])
    + (if |t| > 2 then [Byte1(t[1], t[2])] else [])
    + (if |t| > 3 then [Byte2(t[2], t[3])] else [])
  }

  lemma DecodesTwo(t: seq<byte>)
    requires |t| == 2 && InAlphabet(t[0]) && InAlphabet(t[1])
    ensures Decode(t) == CodeBytes(t)
  {
    BytesOfSextets(SixBits(t[0]), SixBits(t[1]), 0, 0);
  }

  lemma DecodesThree(t: seq<byte>)
    requires |t| == 3 && InAlphabet(t[0]) && InAlphabet(t[1]) && InAlphabet(t[2])
    ensures Decode(t) == CodeBytes(t)
  {
    BytesOfSextets(SixBits(t[0]), SixBits(t[1]), SixBits(t[2]), 0);
  }

  lemma DecodeFour(t: seq<byte>)
    requires |t| == 4
    ensures Decode(t) == Triple(Ungroup(SixBits(t[0]), SixBits(t[1]), SixBits(t[2]), SixBits(t[3])))
  {
    DecodeQuad(t, []);
    assert t + [] == t;
  }

  lemma CodeBytesFour(t: seq<byte>)
    requires |t| == 4
    ensures CodeBytes(t) == [Byte0(t[0], t[1]), Byte1(t[1], t[2]), Byte2(t[2], t[3])]
  {
  }

  lemma DecodesFour(t: seq<byte>)
    requires |t| == 4 && InAlphabet(t[0]) && InAlphabet(t[1]) && InAlphabet(t[2]) && InAlphabet(t[3])
    ensures Decode(t) == CodeBytes(t)
  {
    DecodeFour(t);
    CodeBytesFour(t);
    BytesOfSextets(SixBits(t[0]), SixBits(t[1]), SixBits(t[2]), SixBits(t[3]));
  }

  /** They are those of the standard; a dangling character yields none. */
  lemma CodeDecodes(t: seq<byte>)
    requires 1 <= |t| <= 4 && forall i :: 0 <= i < |t| ==> InAlphabet(t[i])
    ensures Decode(t) == CodeBytes(t)
  {
    if |t| == 2 {
      DecodesTwo(t);
    } else if |t| == 3 {
      DecodesThree(t);
    } else if |t| == 4 {
      DecodesFour(t);
    }
  }

  lemma DecodeUpTo(s: seq<byte>, i: nat, j: nat)
    requires i < j <= |s| && j <= i + 4 && i % 4 == 0
    requires forall k :: 0 <= k < |s| ==> InAlphabet(s[k])
    ensures Decode(s[..j]) == Decode(s[..i]) + CodeBytes(s[i..j])
  {
    CodeDecodes(s[i..j]);
    DecodeAppend(s[..i], s[i..j]);
    assert s[..i] + s[i..j] == s[..j];
  }

  /** One round of the main loop of `Base64decode`, or its tail. */
  method PutBytes(bufplain: array<byte>, o: nat, t: seq<byte>)
    requires 1 <= |t| <= 4 && o + |t| - 1 <= bufplain.Length
    modifies bufplain
    ensures bufplain[..] == old(bufplain[..o]) + CodeBytes(t) + old(bufplain[o + |t| - 1..])
  {
    if |t| > 1 {
      bufplain[o] := Byte0(t[0], t[1]);
    }
    if |t| > 2 {
      bufplain[o + 1] := Byte1(t[1], t[2]);
    }
    if |t| > 3 {
      bufplain[o + 2] := Byte2(t[2], t[3]);
    }
  }

  /** The characters `s[i..j]` are decoded behind what is decoded so far. */
  method TakeNext(bufplain: array<byte>, o: nat, s: seq<byte>, i: nat, j: nat, ghost was: seq<byte>)
    requires i < j <= |s| && j <= i + 4 && i % 4 == 0 && o + (j - i) - 1 <= |was|
    requires forall k :: 0 <= k < |s| ==> InAlphabet(s[k])
    requires |Decode(s[..i])| == o && bufplain[..] == Decode(s[..i]) + was[o..]
    modifies bufplain
    ensures bufplain[..] == Decode(s[..j]) + was[o + (j - i) - 1..]
    ensures |Decode(s[..j])| == o + (j - i) - 1
  {
    ghost var done := Decode(s[..i]);
    DecodeUpTo(s, i, j);
    PutBytes(bufplain, o, s[i..j]);
  }

  lemma DecodeRoom(n: nat, k: nat)
    ensures 4 * k + 4 < n ==> 3 * k + 3 < (n + 3) / 4 * 3
    ensures 4 * k < n <= 4 * k + 4 ==> (n + 3) / 4 * 3 == 3 * k + 3
    ensures n == 0 ==> (n + 3) / 4 * 3 == 0
  {
  }

  /** The main loop of `Base64decode`: all groups but the last. */
  method DecodeGroups(bufplain: array<byte>, s: seq<byte>, ghost was: seq<byte>)
    returns (bufin: nat, bufout: nat, nprbytes: nat, ghost k: nat)
    requires DecodeLength(|s|) <= bufplain.Length && bufplain[..] == was
    requires forall i :: 0 <= i < |s| ==> InAlphabet(s[i])
    modifies bufplain
    ensures bufin == 4 * k && bufout == 3 * k && nprbytes == |s| - bufin <= 4 && (s != [] ==> 0 < nprbytes)
    ensures |Decode(s[..bufin])| == bufout && bufplain[..] == Decode(s[..bufin]) + was[bufout..]
  {
    bufin, bufout, nprbytes, k := 0, 0, |s|, 0;
    while nprbytes > 4
      invariant bufin == 4 * k && bufout == 3 * k && nprbytes == |s| - bufin && (s != [] ==> 0 < nprbytes)
      invariant |Decode(s[..bufin])| == bufout && bufplain[..] == Decode(s[..bufin]) + was[bufout..]
    {
      DecodeRoom(|s|, k);
      TakeNext(bufplain, bufout, s, bufin, bufin + 4, was);
      bufin, bufout, nprbytes, k := bufin + 4, bufout + 3, nprbytes - 4, k + 1;
    }
  }

  lemma DecodeCount(n: nat, k: nat, r: nat)
    requires n == 4 * k + r && r <= 4 && (r == 0 ==> n == 0)
    ensures (n + 3) / 4 * 3 - (4 - r) % 4 == if r == 0 then 0 else 3 * k + r - 1
  {
  }

  /** All groups of `Base64decode`; `nprbytes` characters were in the last one. */
  method DecodeAll(bufplain: array<byte>, s: seq<byte>, ghost was: seq<byte>)
    returns (bufout: nat, nprbytes: nat)
    requires DecodeLength(|s|) <= bufplain.Length && bufplain[..] == was
    requires forall i :: 0 <= i < |s| ==> InAlphabet(s[i])
    modifies bufplain
    ensures bufout == |Decode(s)| && bufplain[..] == Decode(s) + was[bufout..]
    ensures nprbytes <= 4 && bufout == (|s| + 3) / 4 * 3 - (4 - nprbytes) % 4
  {
    ghost var k;
    var bufin;
    bufin, bufout, nprbytes, k := DecodeGroups(bufplain, s, was);
    DecodeCount(|s|, k, nprbytes);
    assert s[..|s|] == s;
    if nprbytes > 0 {
      TakeNext(bufplain, bufout, s, bufin, |s|, was);
      bufout := bufout + nprbytes - 1;
    }
  }

  /** `Base64decode`. */
  method Base64decode(bufplain: array<byte>, bufcoded: seq<byte>) returns (nbytesdecoded: nat)
    requires |Prefix(bufcoded)| < |bufcoded|
    requires DecodeLength(|Prefix(bufcoded)|) <= bufplain.Length
    modifies bufplain
    ensures nbytesdecoded == |Decode(Prefix(bufcoded))|
    ensures bufplain[..] == Decode(Prefix(bufcoded)) + [0] + old(bufplain[nbytesdecoded + 1..])
  {
    ghost var was := bufplain[..];
    var n := CountSymbols(bufcoded);
    var s := bufcoded[..n];
    assert s == Prefix(bufcoded);
    nbytesdecoded := (n + 3) / 4 * 3;
    var bufout, nprbytes := DecodeAll(bufplain, s, was);
    var end := Terminate(bufplain, bufout, Decode(s), was);
    nbytesdecoded := nbytesdecoded - (4 - nprbytes) % 4;
  }

  /** What `Base64encode` writes, `Base64decode` reads back. */
  lemma EncodedDecodes(text: seq<byte>, rest: seq<byte>)
    ensures Decode(Prefix(Encode(text) + [0] + rest)) == text
  {
    RoundTrip(text, [0] + rest);
    assert Encode(text) + [0] + rest == Encode(text) + ([0] + rest);
  }
}
