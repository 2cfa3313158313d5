/** The streaming hasher of `src/sha1_portable.cpp`. */
module Sha1 {
  import opened Bytes
  import opened Sha1Standard

  /** The round function with its OR forms. */
  function RoundFunction(t: nat, b: word, c: word, d: word): word {
    if t < 20 then (b & c) | (!b & d)
    else if t < 40 then b ^ c ^ d
    else if t < 60 then (b & c) | (b & d) | (c & d)
    else b ^ c ^ d
  }

  lemma ChOr(b: word, c: word, d: word)
    ensures ((b & c) | (!b & d)) == (b & c) ^ (!b & d)
  {
  }

  lemma MajOr(b: word, c: word, d: word)
    ensures ((b & c) | (b & d) | (c & d)) == (b & c) ^ (b & d) ^ (c & d)
  {
  }

  /** The OR forms compute Ch and Maj. */
  lemma RoundFunctionIsF(t: nat, b: word, c: word, d: word)
    ensures RoundFunction(t, b, c, d) == F(t, b, c, d)
  {
    if t < 20 {
      ChOr(b, c, d);
    } else if 40 <= t < 60 {
      MajOr(b, c, d);
    }
  }

  /** `swapends`. */
  function SwapEnds(x: word): word {
    ((x & 0xff000000) >> 24) | ((x & 0xff0000) >> 8) | ((x & 0xff00) << 8) | ((x & 0xff) << 24)
  }

  /** Four bytes of memory seen as a word by a little-endian machine. */
  function Load(a: byte, b: byte, c: byte, d: byte): word {
    (d as word << 24) | (c as word << 16) | (b as word << 8) | a as word
  }

  /** A word of memory seen as bytes on a little-endian machine. */
  function Store(x: word): (s: seq<byte>)
    ensures |s| == 4
  {
    [(x & 0xFF) as byte, ((x >> 8) & 0xFF) as byte, ((x >> 16) & 0xFF) as byte, (x >> 24) as byte]
  }

  /** The initial hash value is, in memory, the digits in counting order and back. */
  lemma InitialBytes()
    ensures Store(INITIAL.a) == [0x01, 0x23, 0x45, 0x67] && Store(INITIAL.b) == [0x89, 0xab, 0xcd, 0xef]
    ensures Store(INITIAL.c) == [0xfe, 0xdc, 0xba, 0x98] && Store(INITIAL.d) == [0x76, 0x54, 0x32, 0x10]
    ensures Store(INITIAL.e) == [0xf0, 0xe1, 0xd2, 0xc3]
  {
  }

  lemma StoreLoad(a: byte, b: byte, c: byte, d: byte)
    ensures Store(Load(a, b, c, d)) == [a, b, c, d]
  {
  }

  /** A word of memory, swapped, is the big-endian word of its bytes. */
  lemma SwappedLoad(x: word)
    ensures SwapEnds(x) == Word(Store(x)[0], Store(x)[1], Store(x)[2], Store(x)[3])
  {
  }

  /** The word with its byte `j` replaced. */
  function PutByte(x: word, j: nat, b: byte): (y: word)
    requires j < 4
    ensures Store(y) == Store(x)[j := b]
  {
    var s := Store(x)[j := b];
    StoreLoad(s[0], s[1], s[2], s[3]);
    assert s == [s[0], s[1], s[2], s[3]];
    Load(s[0], s[1], s[2], s[3])
  }

  /** The first sixteen words of `w` as bytes. */
  function BlockBytes(w: seq<word>): (m: seq<byte>)
    requires |w| == 80
    ensures |m| == 64
  {
    seq(64, i requires 0 <= i < 64 => Store(w[i / 4])[i % 4])
  }

  lemma PutBlockByte(w: seq<word>, k: nat, b: byte)
    requires |w| == 80 && k < 64
    ensures BlockBytes(w[k / 4 := PutByte(w[k / 4], k % 4, b)]) == BlockBytes(w)[k := b]
  {
    var v := w[k / 4 := PutByte(w[k / 4], k % 4, b)];
    forall i | 0 <= i < 64 ensures BlockBytes(v)[i] == BlockBytes(w)[k := b][i] {
      if i / 4 == k / 4 {
        assert v[i / 4] == PutByte(w[k / 4], k % 4, b);
        assert i != k ==> i % 4 != k % 4;
      } else {
        assert v[i / 4] == w[i / 4] && i != k;
      }
    }
  }

  lemma BlockWord(w: seq<word>, t: nat)
    requires |w| == 80 && t < 16
    ensures var m := BlockBytes(w);
            SwapEnds(w[t]) == Word(m[4 * t], m[4 * t + 1], m[4 * t + 2], m[4 * t + 3])
  {
    SwappedLoad(w[t]);
  }

  lemma ZeroNext(m: seq<byte>, c: nat, i: nat)
    requires c <= i < |m|
    ensures (m[..c] + Zeros(i - c) + m[i..])[i := 0] == m[..c] + Zeros(i + 1 - c) + m[i + 1..]
  {
  }

  lemma LastFour(m: seq<byte>, a: byte, b: byte, c: byte, d: byte)
    requires |m| == 64
    ensures m[60 := a][61 := b][62 := c][63 := d] == m[..60] + [a, b, c, d]
  {
  }

  lemma SwappedStore(x: word)
    ensures Store(SwapEnds(x)) == WordBytes(x)
  {
  }

  lemma {:induction false} SchedulePrefix(block: seq<byte>, m: nat, n: nat)
    requires |block| == 64 && m <= n
    ensures Schedule(block, n)[..m] == Schedule(block, m)
    decreases n
  {
    if m == n {
    } else {
      SchedulePrefix(block, m, n - 1);
    }
  }

  lemma ScheduleWord(block: seq<byte>, t: nat, n: nat)
    requires |block| == 64 && t < n
    ensures Schedule(block, n)[t] == Schedule(block, t + 1)[t]
  {
    SchedulePrefix(block, t + 1, n);
    assert Schedule(block, n)[..t + 1][t] == Schedule(block, n)[t];
  }

  /** Word `t` of the schedule in terms of earlier ones. */
  lemma ScheduleAt(block: seq<byte>, t: nat, n: nat)
    requires |block| == 64 && t < n
    ensures var w := Schedule(block, n);
            w[t] == if t < 16 then Word(block[4 * t], block[4 * t + 1], block[4 * t + 2], block[4 * t + 3])
                    else Rotl(1, w[t - 3] ^ w[t - 8] ^ w[t - 14] ^ w[t - 16])
  {
    ScheduleWord(block, t, n);
    SchedulePrefix(block, t, n);
    var w, u := Schedule(block, n), Schedule(block, t);
    assert forall i :: 0 <= i < t ==> u[i] == w[i];
  }

  lemma OneMore(a: seq<byte>, data: seq<byte>, i: nat)
    requires i < |data|
    ensures a + data[..i + 1] == a + data[..i] + [data[i]]
  {
  }

  // ---------- padding ----------

  /** The 32-bit sum `l + 8`. */
  function Plus8(l: nat): nat
    requires l < TWO32
  {
    if l + 8 < TWO32 then l + 8 else l + 8 - TWO32
  }

  /** The counter `l` after `n` bytes. */
  function BitCount(n: nat): (l: nat)
    ensures l < TWO32
  {
    if n == 0 then 0 else Plus8(BitCount(n - 1))
  }

  lemma Plus8Wraps(x: nat)
    ensures Plus8(x % TWO32) == (x + 8) % TWO32
  {
    var q, r := x / TWO32, x % TWO32;
    assert x + 8 == TWO32 * q + (r + 8);
  }

  lemma {:induction false} BitCountWraps(n: nat)
    ensures BitCount(n) == 8 * n % TWO32
  {
    if n == 0 {
    } else {
      BitCountWraps(n - 1);
      Plus8Wraps(8 * (n - 1));
    }
  }

  function PaddedWith(m: seq<byte>, length: seq<byte>): (p: seq<byte>)
    requires |length| == 4
    ensures |p| % 64 == 0 && 64 <= |p|
  {
    var k := ZeroCount(|m|);
    var p := m + [0x80] + Zeros(k + 4) + length;
    assert |p| == |m| + 1 + k + 8;
    p
  }

  /** The padding of the code: its length field has 32 bits, below four zero bytes. */
  function CodePadded(m: seq<byte>): (p: seq<byte>)
    ensures |p| % 64 == 0 && 64 <= |p|
  {
    PaddedWith(m, Digits(BitCount(|m|), 4))
  }

  lemma DigitsZero(n: nat)
    requires n < TWO32 * TWO32
    ensures Digits(n / TWO32, 4) == Zeros(4) <==> n < TWO32
  {
    assert Power256(4) == TWO32;
    DigitsBigEndian(n / TWO32, 4);
    BigEndianZeros(4);
    DigitsOfZero(4);
  }

  /** The padding meets section 5.1.1 exactly for messages below 2^29 bytes. */
  lemma PaddingAgrees(m: seq<byte>)
    requires 8 * |m| < TWO32 * TWO32
    ensures CodePadded(m) == Padded(m) <==> |m| < 0x2000_0000
  {
    var k, n := ZeroCount(|m|), 8 * |m|;
    EightDigits(n);
    DigitsZero(n);
    BitCountWraps(|m|);
    var a := m + [0x80] + Zeros(k);
    assert Zeros(k + 4) == Zeros(k) + Zeros(4);
    assert CodePadded(m) == a + Zeros(4) + Digits(n % TWO32, 4);
    assert Padded(m) == a + Digits(n / TWO32, 4) + Digits(n % TWO32, 4);
    if CodePadded(m) == Padded(m) {
      assert CodePadded(m)[|a|..|a| + 4] == Zeros(4);
      assert Padded(m)[|a|..|a| + 4] == Digits(n / TWO32, 4);
    }
  }

  lemma FoldBlock(m: seq<byte>, block: seq<byte>)
    requires |m| % 64 == 0 && |block| == 64
    ensures |m + block| % 64 == 0 && Fold(m + block) == Compress(Fold(m), block)
  {
    assert (m + block)[..|m + block| - 64] == m && (m + block)[|m + block| - 64..] == block;
  }

  function Words(h: State): seq<word> {
    [h.a, h.b, h.c, h.d, h.e]
  }

  function Whole(s: seq<byte>): (w: seq<byte>)
    ensures |w| % 64 == 0
  {
    s[..|s| - |s| % 64]
  }

  lemma SumWords(h: State, v: State)
    ensures Words(Sum(h, v)) ==
            [Add(h.a, v.a), Add(h.b, v.b), Add(h.c, v.c), Add(h.d, v.d), Add(h.e, v.e)]
  {
  }

  /** The hash words `h`, the block `m` filled up to `cursor` and the bit counter `l` stand for the
      bytes `s` absorbed so far. */
  ghost predicate Represents(h: seq<word>, m: seq<byte>, cursor: nat, l: nat, s: seq<byte>) {
    && |m| == 64 && cursor == |s| % 64
    && m[..cursor] == Rest(s)
    && h == Words(Fold(Whole(s)))
    && l == BitCount(|s|)
  }

  /** Two hashers that absorbed the same bytes, in whatever portions, agree on hash words, cursor,
      block prefix and bit counter. */
  lemma SameState(h: seq<word>, m: seq<byte>, cursor: nat, l: nat,
                  h': seq<word>, m': seq<byte>, cursor': nat, l': nat, s: seq<byte>)
    requires Represents(h, m, cursor, l, s) && Represents(h', m', cursor', l', s)
    ensures h == h' && cursor == cursor' == |s| % 64 && m[..cursor] == m'[..cursor'] && l == l' == 8 * |s| % TWO32
  {
    BitCountWraps(|s|);
  }

  lemma NothingAbsorbed(m: seq<byte>)
    requires |m| == 64
    ensures Represents(Words(INITIAL), m, 0, 0, [])
  {
    assert Whole([]) == [];
  }

  lemma ByteInBlock(h: seq<word>, m: seq<byte>, cursor: nat, l: nat, s: seq<byte>, b: byte)
    requires Represents(h, m, cursor, l, s) && cursor < 63
    ensures Represents(h, m[cursor := b], cursor + 1, Plus8(l), s + [b])
  {
    var s' := s + [b];
    assert |s'| % 64 == cursor + 1;
    assert Whole(s') == Whole(s);
    assert m[cursor := b][..cursor + 1] == m[..cursor] + [b];
  }

  lemma ByteEndsBlock(h: seq<word>, m: seq<byte>, cursor: nat, l: nat, s: seq<byte>, b: byte,
                      h': seq<word>, m': seq<byte>)
    requires Represents(h, m, cursor, l, s) && cursor == 63
    requires |m'| == 64 && h' == Words(Compress(Fold(Whole(s)), m[63 := b]))
    ensures Represents(h', m', 0, Plus8(l), s + [b])
  {
    var s' := s + [b];
    assert |s'| % 64 == 0;
    assert Whole(s') == Whole(s) + m[63 := b];
    FoldBlock(Whole(s), m[63 := b]);
  }

  /** All blocks of a padded message but the last. */
  function Front(p: seq<byte>): (f: seq<byte>)
    requires |p| % 64 == 0 && 64 <= |p|
    ensures |f| % 64 == 0
  {
    p[..|p| - 64]
  }

  function LastBlock(p: seq<byte>): (b: seq<byte>)
    requires |p| % 64 == 0 && 64 <= |p|
    ensures |b| == 64
  {
    p[|p| - 64..]
  }

  lemma FoldLast(p: seq<byte>)
    requires |p| % 64 == 0 && 64 <= |p|
    ensures Fold(p) == Compress(Fold(Front(p)), LastBlock(p))
  {
  }

  lemma FrontAndLast(f: seq<byte>, b: seq<byte>)
    requires |f| % 64 == 0 && |b| == 64
    ensures |f + b| % 64 == 0 && Front(f + b) == f && LastBlock(f + b) == b
  {
  }

  lemma Gather(w: seq<byte>, r: seq<byte>, a: seq<byte>, z: seq<byte>, d: seq<byte>)
    ensures (w + r) + a + z + d == w + (r + a + z + d)
  {
  }

  /** The bytes after the last whole block. */
  function Rest(s: seq<byte>): (r: seq<byte>)
    ensures |r| == |s| % 64 && Whole(s) + r == s
  {
    s[|s| - |s| % 64..]
  }

  /** The length field fits into the block of the last byte. */
  lemma OnePaddedBlock(s: seq<byte>, d: seq<byte>)
    requires |s| % 64 <= 55 && |d| == 4
    ensures Front(PaddedWith(s, d)) == Whole(s)
    ensures LastBlock(PaddedWith(s, d)) == Rest(s) + [0x80] + Zeros(59 - |s| % 64) + d
  {
    var z := Zeros(59 - |s| % 64);
    Gather(Whole(s), Rest(s), [0x80], z, d);
    FrontAndLast(Whole(s), Rest(s) + [0x80] + z + d);
  }

  lemma Gather2(w: seq<byte>, r: seq<byte>, a: seq<byte>, m: nat, n: nat, d: seq<byte>)
    ensures (w + r) + a + Zeros(m + n) + d == w + (r + a + Zeros(m)) + (Zeros(n) + d)
  {
  }

  /** The length field needs a block of its own. */
  lemma TwoPaddedBlocks(s: seq<byte>, d: seq<byte>)
    requires 56 <= |s| % 64 && |d| == 4
    ensures Front(PaddedWith(s, d)) == Whole(s) + (Rest(s) + [0x80] + Zeros(63 - |s| % 64))
    ensures LastBlock(PaddedWith(s, d)) == Zeros(60) + d
  {
    var c := |s| % 64;
    Gather2(Whole(s), Rest(s), [0x80], 63 - c, 60, d);
    FrontAndLast(Whole(s) + (Rest(s) + [0x80] + Zeros(63 - c)), Zeros(60) + d);
  }

  /** Both cases of the padding, by the bytes `start` in the block after its first byte. */
  lemma PaddedFrom(s: seq<byte>, d: seq<byte>, start: seq<byte>)
    requires start == Rest(s) + [0x80] && |d| == 4
    ensures |start| == |s| % 64 + 1
    ensures var p := PaddedWith(s, d);
            if |start| <= 56 then Front(p) == Whole(s) && LastBlock(p) == start + Zeros(60 - |start|) + d
            else Front(p) == Whole(s) + (start + Zeros(64 - |start|)) && LastBlock(p) == [] + Zeros(60) + d
  {
    if |s| % 64 <= 55 {
      OnePaddedBlock(s, d);
    } else {
      TwoPaddedBlocks(s, d);
      assert [] + Zeros(60) == Zeros(60);
    }
  }

  class SecureHashAlgorithm {
    var A: word
    var B: word
    var C: word
    var D: word
    var E: word
    const H: array<word>
    const W: array<word>
    var cursor: nat
    var l: nat
    ghost var absorbed: seq<byte>

    ghost predicate Shaped()
    {
      H.Length == 5 && W.Length == 80 && W != H
    }

    /** The bytes that M, which shares its memory with the first words of W, holds. */
    ghost function M(): seq<byte>
      requires Shaped()
      reads W
    {
      BlockBytes(W[..])
    }

    /** The fields hold the hash of the bytes absorbed so far, up to the last whole block; the
        bytes after it stand at the start of M. */
    ghost predicate Valid()
      reads this, H, W
    {
      Shaped() && Represents(H[..], M(), cursor, l, absorbed)
    }

    constructor ()
      ensures Valid() && absorbed == [] && fresh(H) && fresh(W)
    {
      H := new word[5];
      W := new word[80];
      new;
      Init();
    }

    /** `Init`. */
    method Init()
      requires Shaped()
      modifies this, H
      ensures Valid() && absorbed == []
    {
      A, B, C, D, E := 0, 0, 0, 0, 0;
      cursor, l := 0, 0;
      SetInitial();
      absorbed := [];
      NothingAbsorbed(M());
    }

    method SetInitial()
      requires Shaped()
      modifies H
      ensures H[..] == Words(INITIAL)
    {
      var h0: word, h1: word, h2: word := 0x67452301, 0xefcdab89, 0x98badcfe;
      var h3: word, h4: word := 0x10325476, 0xc3d2e1f0;
      H[0], H[1], H[2], H[3], H[4] := h0, h1, h2, h3, h4;
      assert H[..] == [h0, h1, h2, h3, h4];
    }

    /** `M[k] = b`. */
    method SetByte(k: nat, b: byte)
      requires Shaped() && k < 64
      modifies W
      ensures M() == old(M())[k := b]
    {
      PutBlockByte(W[..], k, b);
      ghost var w := W[..][k / 4 := PutByte(W[k / 4], k % 4, b)];
      W[k / 4] := PutByte(W[k / 4], k % 4, b);
      assert W[..] == w;
    }

    /** `Process`, step a: the block becomes the first words of the schedule. */
    method SwapBlock()
      requires Shaped()
      modifies W
      ensures forall i :: 0 <= i < 16 ==> W[i] == Schedule(old(M()), 80)[i]
    {
      ghost var block, w := M(), W[..];
      var t := 0;
      while t < 16
        invariant 0 <= t <= 16
        invariant forall i :: 0 <= i < 80 ==> W[i] == if i < t then Schedule(block, 80)[i] else w[i]
      {
        BlockWord(w, t);
        ScheduleAt(block, t, 80);
        W[t] := SwapEnds(W[t]);
        t := t + 1;
      }
    }

    /** `Process`, step b. */
    method ExtendSchedule(ghost block: seq<byte>)
      requires Shaped() && |block| == 64 && forall i :: 0 <= i < 16 ==> W[i] == Schedule(block, 80)[i]
      modifies W
      ensures W[..] == Schedule(block, 80)
    {
      var t := 16;
      while t < 80
        invariant 16 <= t <= 80
        invariant forall i :: 0 <= i < t ==> W[i] == Schedule(block, 80)[i]
      {
        ScheduleAt(block, t, 80);
        W[t] := Rotl(1, W[t - 3] ^ W[t - 8] ^ W[t - 14] ^ W[t - 16]);
        t := t + 1;
      }
    }

    /** Steps a and b, in the memory that W and M share: the block is overwritten. */
    method MakeSchedule()
      requires Shaped()
      modifies W
      ensures W[..] == Schedule(old(M()), 80)
    {
      ghost var block := M();
      SwapBlock();
      ExtendSchedule(block);
    }

    method OneRound(t: nat)
      requires Shaped() && t < 80
      modifies `A, `B, `C, `D, `E
      ensures State(A, B, C, D, E) == Round(old(State(A, B, C, D, E)), W[t], t)
    {
      RoundFunctionIsF(t, B, C, D);
      var temp := Add(Add(Add(Add(Rotl(5, A), RoundFunction(t, B, C, D)), E), W[t]), K(t));
      E := D;
      D := C;
      C := Rotl(30, B);
      B := A;
      A := temp;
    }

    /** `Process`, step e. */
    method AddToHash(ghost h: State)
      requires Shaped() && H[..] == Words(h)
      modifies H
      ensures H[..] == Words(Sum(h, State(A, B, C, D, E)))
    {
      H[0] := Add(H[0], A);
      H[1] := Add(H[1], B);
      H[2] := Add(H[2], C);
      H[3] := Add(H[3], D);
      H[4] := Add(H[4], E);
      SumWords(h, State(A, B, C, D, E));
      assert H.Length == 5;
    }

    /** `Process`, step d. */
    method RunRounds(ghost h: State, ghost block: seq<byte>)
      requires Shaped() && |block| == 64 && W[..] == Schedule(block, 80) && State(A, B, C, D, E) == h
      modifies `A, `B, `C, `D, `E
      ensures State(A, B, C, D, E) == Rounds(h, block, 80)
    {
      var t := 0;
      while t < 80
        invariant 0 <= t <= 80 && W[..] == Schedule(block, 80)
        invariant State(A, B, C, D, E) == Rounds(h, block, t)
      {
        OneRound(t);
        t := t + 1;
      }
    }

    /** `Process`: the block in M is compressed into H. */
    method Process(ghost h: State)
      requires Shaped() && H[..] == Words(h)
      modifies `A, `B, `C, `D, `E, `cursor, H, W
      ensures H[..] == Words(Compress(h, old(M())))
      ensures cursor == 0
    {
      ghost var block := M();
      MakeSchedule();
      A, B, C, D, E := H[0], H[1], H[2], H[3], H[4];
      assert State(A, B, C, D, E) == h;
      RunRounds(h, block);
      AddToHash(h);
      cursor := 0;
    }

    /** One round of the loop of `Update`. */
    method Absorb(b: byte)
      requires Valid()
      modifies this, H, W
      ensures Valid() && absorbed == old(absorbed) + [b]
    {
      ghost var h, m, c, w := H[..], M(), cursor, Whole(absorbed);
      SetByte(cursor, b);
      cursor := cursor + 1;
      if cursor >= 64 {
        Process(Fold(w));
        ByteEndsBlock(h, m, c, l, absorbed, b, H[..], M());
      } else {
        ByteInBlock(h, m, c, l, absorbed, b);
      }
      l := Plus8(l);
      absorbed := absorbed + [b];
    }

    /** `Update`. */
    method Update(data: seq<byte>)
      requires Valid()
      modifies this, H, W
      ensures Valid() && absorbed == old(absorbed) + data
    {
      var i := 0;
      while i < |data|
        invariant 0 <= i <= |data| && Valid() && absorbed == old(absorbed) + data[..i]
      {
        Absorb(data[i]);
        OneMore(old(absorbed), data, i);
        i := i + 1;
      }
    }

    /** The zero loops of `Pad`. */
    method FillZeros(limit: nat)
      requires Shaped() && cursor <= limit <= 64
      modifies `cursor, W
      ensures M() == old(M()[..cursor]) + Zeros(limit - old(cursor)) + old(M()[limit..])
      ensures cursor == limit
    {
      ghost var c, m := cursor, M();
      assert m == m[..c] + Zeros(0) + m[c..];
      while cursor < limit
        invariant c <= cursor <= limit
        invariant M() == m[..c] + Zeros(cursor - c) + m[cursor..]
      {
        ZeroNext(m, c, cursor);
        SetByte(cursor, 0);
        cursor := cursor + 1;
      }
    }

    /** The length field of `Pad`; the masks and shifts of the source pick the four bytes of `l`. */
    method WriteLength()
      requires Shaped() && l < TWO32
      modifies W
      ensures M() == old(M()[..60]) + Digits(l, 4)
    {
      FourDigits(l, l / 0x100, l / 0x1_0000, l / 0x100_0000, 0);
      LastFour(M(), ToByte(l / 0x100_0000), ToByte(l / 0x1_0000), ToByte(l / 0x100), ToByte(l));
      SetByte(64 - 4, ToByte(l / 0x100_0000));
      SetByte(64 - 3, ToByte(l / 0x1_0000));
      SetByte(64 - 2, ToByte(l / 0x100));
      SetByte(64 - 1, ToByte(l));
    }

    /** The first byte of the padding. */
    method StartPadding()
      requires Valid()
      modifies `cursor, W
      ensures cursor == old(cursor) + 1 <= 64 && M()[..cursor] == Rest(absorbed) + [0x80]
    {
      SetByte(cursor, 0x80);
      cursor := cursor + 1;
    }

    /** The block is filled with zeros and compressed. */
    method CloseBlock(ghost start: seq<byte>, ghost whole: seq<byte>)
      requires Shaped() && cursor == |start| <= 64 && M()[..cursor] == start
      requires |whole| % 64 == 0 && H[..] == Words(Fold(whole))
      modifies `A, `B, `C, `D, `E, `cursor, H, W
      ensures cursor == 0 && H[..] == Words(Fold(whole + (start + Zeros(64 - |start|))))
    {
      FoldBlock(whole, start + Zeros(64 - |start|));
      FillZeros(64);
      assert M() == start + Zeros(64 - |start|);
      Process(Fold(whole));
    }

    /** The end of `Pad`: zeros up to the length field, and the length. */
    method EndPadding(ghost start: seq<byte>)
      requires Shaped() && l < TWO32 && cursor == |start| <= 60 && M()[..cursor] == start
      modifies `cursor, W
      ensures M() == start + Zeros(60 - |start|) + Digits(l, 4)
    {
      FillZeros(64 - 4);
      assert M()[..60] == start + Zeros(60 - |start|);
      WriteLength();
    }

    /** `Pad`: all padded blocks but the last are compressed, the last stands in M. */
    method Pad()
      requires Valid()
      modifies this, H, W
      ensures Shaped()
      ensures M() == LastBlock(CodePadded(old(absorbed)))
      ensures H[..] == Words(Fold(Front(CodePadded(old(absorbed)))))
    {
      ghost var s := absorbed;
      ghost var start := Rest(s) + [0x80];
      PaddedFrom(s, Digits(l, 4), start);
      StartPadding();
      if cursor > 64 - 8 {
        CloseBlock(start, Whole(s));
        EndPadding([]);
      } else {
        EndPadding(start);
      }
    }

    /** The byte swaps of `Final`. */
    method SwapHash(ghost h: State)
      requires Shaped() && H[..] == Words(h)
      modifies H
      ensures forall i :: 0 <= i < 5 ==> H[i] == SwapEnds(Words(h)[i])
    {
      var t := 0;
      while t < 5
        invariant 0 <= t <= 5
        invariant forall i :: 0 <= i < 5 ==> H[i] == if i < t then SwapEnds(Words(h)[i]) else Words(h)[i]
      {
        H[t] := SwapEnds(H[t]);
        t := t + 1;
      }
    }

    /** `Final`: the digest, read as the bytes of H on a little-endian machine. */
    method Final() returns (digest: seq<byte>)
      requires Valid()
      modifies this, H, W
      ensures digest == StateBytes(Fold(CodePadded(old(absorbed))))
    {
      ghost var p := CodePadded(absorbed);
      ghost var h := Fold(p);
      Pad();
      FoldLast(p);
      Process(Fold(Front(p)));
      SwapHash(h);
      SwappedStore(h.a);
      SwappedStore(h.b);
      SwappedStore(h.c);
      SwappedStore(h.d);
      SwappedStore(h.e);
      digest := Store(H[0]) + Store(H[1]) + Store(H[2]) + Store(H[3]) + Store(H[4]);
    }
  }

  /** `SHA1HashBytes`. */
  method SHA1HashBytes(data: seq<byte>) returns (hash: seq<byte>)
    ensures hash == StateBytes(Fold(CodePadded(data)))
    ensures |data| < 0x2000_0000 ==> hash == Hash(data)
  {
    var sha := new SecureHashAlgorithm();
    sha.Update(data);
    assert [] + data == data;
    hash := sha.Final();
    if |data| < 0x2000_0000 {
      PaddingAgrees(data);
    }
  }
}
