/** SHA-1 of the sample key of section 1.3 of RFC 6455 with the GUID behind it, worked through all
    rounds of its two blocks.  This fixes every constant, rotation and byte order of the hash. */
module Sha1Sample {
  import opened Bytes
  import opened Sha1Standard
  import opened Sha1
  import opened Text

  /** The working variables and the next sixteen words of the schedule. */
  datatype Machine = Machine(v: State, w0: word, w1: word, w2: word, w3: word, w4: word, w5: word, w6: word,
                             w7: word, w8: word, w9: word, w10: word, w11: word, w12: word, w13: word,
                             w14: word, w15: word)

  function Shift(m: Machine, v: State, x: word): Machine {
    Machine(v, m.w1, m.w2, m.w3, m.w4, m.w5, m.w6, m.w7, m.w8, m.w9, m.w10, m.w11, m.w12, m.w13, m.w14, m.w15, x)
  }

  function Next(m: Machine, t: nat): Machine {
    Shift(m, Round(m.v, m.w0, t), Rotl(1, m.w13 ^ m.w8 ^ m.w2 ^ m.w0))
  }

  function Five(m: Machine, t: nat): Machine {
    Next(Next(Next(Next(Next(m, t), t + 1), t + 2), t + 3), t + 4)
  }

  function Ten(m: Machine, t: nat): Machine {
    Five(Five(m, t), t + 5)
  }

  function MachineAt(h: State, block: seq<byte>, n: nat, t: nat): Machine
    requires |block| == 64 && t <= 80 && t + 16 <= n
  {
    var w := Schedule(block, n);
    Machine(Rounds(h, block, t), w[t], w[t + 1], w[t + 2], w[t + 3], w[t + 4], w[t + 5], w[t + 6], w[t + 7],
            w[t + 8], w[t + 9], w[t + 10], w[t + 11], w[t + 12], w[t + 13], w[t + 14], w[t + 15])
  }

  lemma EarlierWord(block: seq<byte>, t: nat, n: nat)
    requires |block| == 64 && t < 80 <= n
    ensures Schedule(block, 80)[t] == Schedule(block, n)[t]
  {
    ScheduleWord(block, t, 80);
    ScheduleWord(block, t, n);
  }

  lemma NextWord(block: seq<byte>, n: nat, t: nat)
    requires |block| == 64 && t + 17 <= n
    ensures var w := Schedule(block, n); w[t + 16] == Rotl(1, w[t + 13] ^ w[t + 8] ^ w[t + 2] ^ w[t])
  {
    ScheduleAt(block, t + 16, n);
  }

  lemma RoundAt(h: State, block: seq<byte>, n: nat, t: nat)
    requires |block| == 64 && t < 80 <= n
    ensures Rounds(h, block, t + 1) == Round(Rounds(h, block, t), Schedule(block, n)[t], t)
  {
    EarlierWord(block, t, n);
  }

  lemma ShiftAt(h: State, block: seq<byte>, n: nat, t: nat, x: word)
    requires |block| == 64 && t < 80 && t + 17 <= n && 80 <= n && x == Schedule(block, n)[t + 16]
    ensures Shift(MachineAt(h, block, n, t), Rounds(h, block, t + 1), x) == MachineAt(h, block, n, t + 1)
  {
  }

  lemma NewWordAt(h: State, block: seq<byte>, n: nat, t: nat, x: word)
    requires |block| == 64 && t < 80 && t + 17 <= n && 80 <= n
    requires var m := MachineAt(h, block, n, t); x == Rotl(1, m.w13 ^ m.w8 ^ m.w2 ^ m.w0)
    ensures x == Schedule(block, n)[t + 16]
  {
    NextWord(block, n, t);
  }

  lemma NewStateAt(h: State, block: seq<byte>, n: nat, t: nat, v: State)
    requires |block| == 64 && t < 80 && t + 17 <= n && 80 <= n
    requires var m := MachineAt(h, block, n, t); v == Round(m.v, m.w0, t)
    ensures v == Rounds(h, block, t + 1)
  {
    RoundAt(h, block, n, t);
  }

  lemma NextAt(h: State, block: seq<byte>, n: nat, t: nat)
    requires |block| == 64 && t < 80 && t + 17 <= n && 80 <= n
    ensures Next(MachineAt(h, block, n, t), t) == MachineAt(h, block, n, t + 1)
  {
    var m := MachineAt(h, block, n, t);
    var v, x := Round(m.v, m.w0, t), Rotl(1, m.w13 ^ m.w8 ^ m.w2 ^ m.w0);
    NewWordAt(h, block, n, t, x);
    NewStateAt(h, block, n, t, v);
    ShiftAt(h, block, n, t, x);
  }

  lemma FiveAt(h: State, block: seq<byte>, n: nat, t: nat)
    requires |block| == 64 && t <= 75 && 96 <= n
    ensures Five(MachineAt(h, block, n, t), t) == MachineAt(h, block, n, t + 5)
  {
    NextAt(h, block, n, t);
    NextAt(h, block, n, t + 1);
    NextAt(h, block, n, t + 2);
    NextAt(h, block, n, t + 3);
    NextAt(h, block, n, t + 4);
  }

  /** A handle: what a link says is looked at only where `Held` is mentioned. */
  predicate Held(x: bool) {
    x || !x
  }

  /** `m'` is ten rounds behind `m`. */
  ghost predicate Link(m: Machine, t: nat, m': Machine) {
    forall x {:trigger Held(x)} :: Held(x) ==> Ten(m, t) == m'
  }

  lemma LinkAt(h: State, block: seq<byte>, n: nat, t: nat, m: Machine, m': Machine)
    requires |block| == 64 && t <= 70 && 96 <= n && MachineAt(h, block, n, t) == m && Link(m, t, m')
    ensures MachineAt(h, block, n, t + 10) == m'
  {
    assert Held(true);
    FiveAt(h, block, n, t);
    FiveAt(h, block, n, t + 5);
  }

  lemma FortyAt(h: State, block: seq<byte>, n: nat, t: nat, m0: Machine, m1: Machine, m2: Machine, m3: Machine,
                m4: Machine)
    requires |block| == 64 && t <= 40 && 96 <= n && MachineAt(h, block, n, t) == m0
    requires Link(m0, t, m1) && Link(m1, t + 10, m2) && Link(m2, t + 20, m3) && Link(m3, t + 30, m4)
    ensures MachineAt(h, block, n, t + 40) == m4
  {
    LinkAt(h, block, n, t, m0, m1);
    LinkAt(h, block, n, t + 10, m1, m2);
    LinkAt(h, block, n, t + 20, m2, m3);
    LinkAt(h, block, n, t + 30, m3, m4);
  }

  lemma LastMachine(h: State, block: seq<byte>, n: nat, t: nat, m: Machine)
    requires |block| == 64 && t == 80 && 96 <= n && MachineAt(h, block, n, t) == m
    ensures Compress(h, block) == Sum(h, m.v)
  {
  }

  /** A block is compressed to the sum with the last machine of its trace; `t` is zero. */
  lemma Traced(h: State, block: seq<byte>, n: nat, t: nat, m0: Machine, m1: Machine, m2: Machine, m3: Machine,
               m4: Machine, m5: Machine, m6: Machine, m7: Machine, m8: Machine)
    requires |block| == 64 && 96 <= n && t + 80 == 80 && MachineAt(h, block, n, t) == m0
    requires Link(m0, t, m1) && Link(m1, t + 10, m2) && Link(m2, t + 20, m3) && Link(m3, t + 30, m4)
    requires Link(m4, t + 40, m5) && Link(m5, t + 50, m6) && Link(m6, t + 60, m7) && Link(m7, t + 70, m8)
    ensures Compress(h, block) == Sum(h, m8.v)
  {
    FortyAt(h, block, n, t, m0, m1, m2, m3, m4);
    FortyAt(h, block, n, t + 40, m4, m5, m6, m7, m8);
    LastMachine(h, block, n, t + 80, m8);
  }

  /** The bytes of big-endian words. */
  function WordsBytes(w: seq<word>): (s: seq<byte>)
    ensures |s| == 4 * |w|
  {
    if w == [] then [] else WordsBytes(w[..|w| - 1]) + WordBytes(w[|w| - 1])
  }

  lemma WordsSnoc(w: seq<word>, x: word)
    ensures WordsBytes(w + [x]) == WordsBytes(w) + WordBytes(x)
  {
    assert (w + [x])[..|w|] == w;
  }

  lemma {:induction false} WordsAt(w: seq<word>, t: nat)
    requires t < |w|
    ensures var s, b := WordsBytes(w), WordBytes(w[t]);
            s[4 * t] == b[0] && s[4 * t + 1] == b[1] && s[4 * t + 2] == b[2] && s[4 * t + 3] == b[3]
    decreases |w|
  {
    if t == |w| - 1 {
    } else {
      WordsAt(w[..|w| - 1], t);
    }
  }

  lemma BytesOfWord(w: word)
    ensures var s := WordBytes(w); Word(s[0], s[1], s[2], s[3]) == w
  {
  }

  /** The first words of the schedule are those of the block. */
  lemma FirstWord(w: seq<word>, n: nat, t: nat)
    requires |w| == 16 && t < 16 && t < n
    ensures Schedule(WordsBytes(w), n)[t] == w[t]
  {
    ScheduleAt(WordsBytes(w), t, n);
    WordsAt(w, t);
    BytesOfWord(w[t]);
  }

  lemma Started(h: State, w: seq<word>, n: nat)
    requires |w| == 16 && 96 <= n
    ensures MachineAt(h, WordsBytes(w), n, 0) ==
            Machine(h, w[0], w[1], w[2], w[3], w[4], w[5], w[6], w[7], w[8], w[9], w[10], w[11], w[12], w[13],
                    w[14], w[15])
  {
    forall t | 0 <= t < 16 ensures Schedule(WordsBytes(w), n)[t] == w[t] {
      FirstWord(w, n, t);
    }
  }

  // ---------- the first block ----------

  const WORDS_A: seq<word> := [
    0x6447686c, 0x49484e68, 0x62584273, 0x5a534275, 0x6232356a, 0x5a513d3d, 0x32353845, 0x41464135, 0x2d453931,
    0x342d3437, 0x44412d39, 0x3543412d, 0x43354142, 0x30444338, 0x35423131, 0x80000000]

  const A0 := Machine(State(0x67452301, 0xefcdab89, 0x98badcfe, 0x10325476, 0xc3d2e1f0),
    0x6447686c, 0x49484e68, 0x62584273, 0x5a534275, 0x6232356a, 0x5a513d3d, 0x32353845, 0x41464135, 0x2d453931,
    0x342d3437, 0x44412d39, 0x3543412d, 0x43354142, 0x30444338, 0x35423131, 0x80000000)
  const A10 := Machine(State(0xfaad2675, 0x32beb05a, 0x4b833980, 0x1cd54fa1, 0x5cc82e5a),
    0x44412d39, 0x3543412d, 0x43354142, 0x30444338, 0x35423131, 0x80000000, 0x363ca02c, 0x24e81236, 0x8856b441,
    0x06fb3c92, 0x6fb4bcb6, 0x460b16e3, 0x599219ae, 0x35bf9369, 0x3267458e, 0xf828fd04)
  const A20 := Machine(State(0x091ab97c, 0x8dc510b6, 0xdfaeca5a, 0x75f6bd5d, 0x2801311a),
    0x6fb4bcb6, 0x460b16e3, 0x599219ae, 0x35bf9369, 0x3267458e, 0xf828fd04, 0x753a96a7, 0x6336f612, 0xc3d66383,
    0x06eb86f9, 0x73b4fd42, 0xa503c5b8, 0x15cdae35, 0x531e5dc5, 0x6fb6b7d0, 0x6c16e4ac)
  const A30 := Machine(State(0x081b63e5, 0x1abb1c37, 0x95c7df60, 0x3bc04bc8, 0x1d22ce68),
    0x73b4fd42, 0xa503c5b8, 0x15cdae35, 0x531e5dc5, 0x6fb6b7d0, 0x6c16e4ac, 0x4ddd36bd, 0x35d36946, 0xe8ae8b9c,
    0x4a933ad0, 0xce8628b4, 0x415dba9e, 0x2792f049, 0x8e9b79e7, 0x79c425c5, 0x6353b49d)
  const A40 := Machine(State(0x2ba2c83e, 0xd0869081, 0x1a1d8209, 0xd3334889, 0x2779e4f2),
    0xce8628b4, 0x415dba9e, 0x2792f049, 0x8e9b79e7, 0x79c425c5, 0x6353b49d, 0x00994218, 0x8a950ed1, 0xaf5d0b99,
    0xfd9883de, 0x1ed8ffeb, 0xf007ff28, 0x425e3674, 0x059631c0, 0xad6c3c31, 0x860b71d7)
  const A50 := Machine(State(0x065f8486, 0x7510d04f, 0xaaf85d22, 0x37b92dea, 0x5cbfccd3),
    0x1ed8ffeb, 0xf007ff28, 0x425e3674, 0x059631c0, 0xad6c3c31, 0x860b71d7, 0x87bfc548, 0x3e64f92d, 0x8d0ab761,
    0x34e1ee35, 0x0acf5108, 0xc2b479da, 0x6c93370a, 0xf7935ba1, 0xe91c91c1, 0xbed165a2)
  const A60 := Machine(State(0x4872d85a, 0xd284f163, 0x83091f0b, 0x1bbdbfbd, 0x9f8490bc),
    0x0acf5108, 0xc2b479da, 0x6c93370a, 0xf7935ba1, 0xe91c91c1, 0xbed165a2, 0x4c3e4abe, 0x50d96238, 0xb6587dde,
    0x1a2ee6e6, 0x2d335896, 0xf3495d0b, 0xf30e0a1d, 0x32ce5459, 0x7165e3b8, 0xab05ff94)
  const A70 := Machine(State(0x07381b7e, 0x966e049a, 0x33e1963b, 0x14c4c690, 0xf0f0b916),
    0x2d335896, 0xf3495d0b, 0xf30e0a1d, 0x32ce5459, 0x7165e3b8, 0xab05ff94, 0xc5949f0b, 0xbcd84e4a, 0x07720392,
    0xff3ff806, 0xd5e93e51, 0xb768a0a3, 0xe87859bc, 0x68368a36, 0xd32e35c1, 0x7b8f5837)
  const A80 := Machine(State(0xf48a5426, 0x835995e1, 0x25c11efb, 0x4a45c402, 0x9a73c2f2),
    0xd5e93e51, 0xb768a0a3, 0xe87859bc, 0x68368a36, 0xd32e35c1, 0x7b8f5837, 0x62f3b65f, 0xdb2d892b, 0x581b1f86,
    0x98a17a62, 0x0f495849, 0x4fe048dc, 0x12d3a675, 0x6e436c64, 0xff118681, 0x0352eff7)

  lemma LinkA0()
    ensures Link(A0, 0, A10)
  {
    assert Ten(A0, 0) == A10;
  }

  lemma LinkA10()
    ensures Link(A10, 10, A20)
  {
    assert Ten(A10, 10) == A20;
  }

  lemma LinkA20()
    ensures Link(A20, 20, A30)
  {
    assert Ten(A20, 20) == A30;
  }

  lemma LinkA30()
    ensures Link(A30, 30, A40)
  {
    assert Ten(A30, 30) == A40;
  }

  lemma LinkA40()
    ensures Link(A40, 40, A50)
  {
    assert Ten(A40, 40) == A50;
  }

  lemma LinkA50()
    ensures Link(A50, 50, A60)
  {
    assert Ten(A50, 50) == A60;
  }

  lemma LinkA60()
    ensures Link(A60, 60, A70)
  {
    assert Ten(A60, 60) == A70;
  }

  lemma LinkA70()
    ensures Link(A70, 70, A80)
  {
    assert Ten(A70, 70) == A80;
  }

  lemma CompressedA(n: nat)
    requires n == 96
    ensures Compress(A0.v, WordsBytes(WORDS_A)) == Sum(A0.v, A80.v)
  {
    LinkA0();
    LinkA10();
    LinkA20();
    LinkA30();
    LinkA40();
    LinkA50();
    LinkA60();
    LinkA70();
    Started(A0.v, WORDS_A, n);
    Traced(A0.v, WordsBytes(WORDS_A), n, 0, A0, A10, A20, A30, A40, A50, A60, A70, A80);
  }

  lemma SumA()
    ensures Sum(A0.v, A80.v) == State(0x5bcf7727, 0x7327416a, 0xbe7bfbf9, 0x5a781878, 0x5e46a4e2)
  {
  }

  // ---------- the second block ----------

  const WORDS_B: seq<word> := [
    0x00000000, 0x00000000, 0x00000000, 0x00000000, 0x00000000, 0x00000000, 0x00000000, 0x00000000, 0x00000000,
    0x00000000, 0x00000000, 0x00000000, 0x00000000, 0x00000000, 0x00000000, 0x000001e0]

  const B0 := Machine(State(0x5bcf7727, 0x7327416a, 0xbe7bfbf9, 0x5a781878, 0x5e46a4e2),
    0x00000000, 0x00000000, 0x00000000, 0x00000000, 0x00000000, 0x00000000, 0x00000000, 0x00000000, 0x00000000,
    0x00000000, 0x00000000, 0x00000000, 0x00000000, 0x00000000, 0x00000000, 0x000001e0)
  const B10 := Machine(State(0x0b0814c3, 0x80946593, 0x8970062f, 0xaceef2bf, 0xe4e97bee),
    0x00000000, 0x00000000, 0x00000000, 0x00000000, 0x00000000, 0x000001e0, 0x00000000, 0x00000000, 0x000003c0,
    0x00000000, 0x00000000, 0x00000780, 0x00000000, 0x000003c0, 0x00000f00, 0x00000000)
  const B20 := Machine(State(0x2a008b51, 0x2f193a09, 0x9c8663c1, 0x8eb5d103, 0x261b7c9a),
    0x00000000, 0x00000780, 0x00000000, 0x000003c0, 0x00000f00, 0x00000000, 0x00000000, 0x00001e00, 0x00000000,
    0x00000cc0, 0x00003c00, 0x00000440, 0x00000000, 0x00007800, 0x00000f00, 0x00003300)
  const B30 := Machine(State(0x243ee057, 0xf57cb53e, 0xe4c9f7db, 0xb4b9c9b6, 0x591b19df),
    0x00003c00, 0x00000440, 0x00000000, 0x00007800, 0x00000f00, 0x00003300, 0x0000f000, 0x00000f00, 0x00000000,
    0x0001ef00, 0x00000000, 0x0000cc00, 0x0003c000, 0x00004380, 0x00000000, 0x00078f00)
  const B40 := Machine(State(0x6f698f1a, 0xc6ff0cd3, 0xde5ab7bc, 0x5f6f3cbb, 0x1da48a85),
    0x00000000, 0x0000cc00, 0x0003c000, 0x00004380, 0x00000000, 0x00078f00, 0x0000ff00, 0x00032680, 0x000f0000,
    0x0000f000, 0x00003300, 0x001eff00, 0x00000000, 0x000cb800, 0x003c0000, 0x00040b00)
  const B50 := Machine(State(0xa516f265, 0xa39f2041, 0xa8fbe15f, 0xb23368f6, 0xcef6480e),
    0x00003300, 0x001eff00, 0x00000000, 0x000cb800, 0x003c0000, 0x00040b00, 0x0000f000, 0x0078ff00, 0x000ff000,
    0x00338700, 0x00f00000, 0x000fc300, 0x0000f000, 0x01efbb00, 0x00000000, 0x00cc0000)
  const B60 := Machine(State(0x56119f19, 0x085eb2fe, 0x484a25c5, 0xc140cfe8, 0x686da050),
    0x00f00000, 0x000fc300, 0x0000f000, 0x01efbb00, 0x00000000, 0x00cc0000, 0x03c0f000, 0x00438000, 0x00000000,
    0x078f0000, 0x00ff0000, 0x03269e00, 0x0f000000, 0x00f0f000, 0x00333c00, 0x1eff8800)
  const B70 := Machine(State(0xbf3a7f95, 0x4e363db9, 0x025e9447, 0x325fc65a, 0xc5e88bbd),
    0x00ff0000, 0x03269e00, 0x0f000000, 0x00f0f000, 0x00333c00, 0x1eff8800, 0x00000000, 0x0cb88800, 0x3c00f000,
    0x040a4a00, 0x00f0f000, 0x78ff0000, 0x0ff30c00, 0x3387f000, 0xf0000000, 0x0fc43400)
  const B80 := Machine(State(0x57aad805, 0x4d3b0dac, 0xd27a4a0d, 0x74c040cd, 0x54782008),
    0x00f0f000, 0x78ff0000, 0x0ff30c00, 0x3387f000, 0xf0000000, 0x0fc43400, 0x00f00000, 0xefb84801, 0x000ff000,
    0xcc00f000, 0xc0f0f003, 0x439e0000, 0x00000000, 0x8f0c0c07, 0xff3c0000, 0x269a0403)

  lemma LinkB0()
    ensures Link(B0, 0, B10)
  {
    assert Ten(B0, 0) == B10;
  }

  lemma LinkB10()
    ensures Link(B10, 10, B20)
  {
    assert Ten(B10, 10) == B20;
  }

  lemma LinkB20()
    ensures Link(B20, 20, B30)
  {
    assert Ten(B20, 20) == B30;
  }

  lemma LinkB30()
    ensures Link(B30, 30, B40)
  {
    assert Ten(B30, 30) == B40;
  }

  lemma LinkB40()
    ensures Link(B40, 40, B50)
  {
    assert Ten(B40, 40) == B50;
  }

  lemma LinkB50()
    ensures Link(B50, 50, B60)
  {
    assert Ten(B50, 50) == B60;
  }

  lemma LinkB60()
    ensures Link(B60, 60, B70)
  {
    assert Ten(B60, 60) == B70;
  }

  lemma LinkB70()
    ensures Link(B70, 70, B80)
  {
    assert Ten(B70, 70) == B80;
  }

  lemma CompressedB(n: nat)
    requires n == 96
    ensures Compress(B0.v, WordsBytes(WORDS_B)) == Sum(B0.v, B80.v)
  {
    LinkB0();
    LinkB10();
    LinkB20();
    LinkB30();
    LinkB40();
    LinkB50();
    LinkB60();
    LinkB70();
    Started(B0.v, WORDS_B, n);
    Traced(B0.v, WordsBytes(WORDS_B), n, 0, B0, B10, B20, B30, B40, B50, B60, B70, B80);
  }

  lemma SumB()
    ensures Sum(B0.v, B80.v) == State(0xb37a4f2c, 0xc0624f16, 0x90f64606, 0xcf385945, 0xb2bec4ea)
  {
  }

  // ---------- the message ----------

  const KEY_WORDS: seq<word> := [
    0x6447686c, 0x49484e68, 0x62584273, 0x5a534275, 0x6232356a, 0x5a513d3d]

  const GUID_WORDS: seq<word> := [
    0x32353845, 0x41464135, 0x2d453931, 0x342d3437, 0x44412d39, 0x3543412d, 0x43354142, 0x30444338, 0x35423131]

  /** Four characters and the word they make. */
  lemma Spell(s: string, w: seq<word>, c: string, x: word)
    requires Ascii(s) == WordsBytes(w) && |c| == 4
    requires Value(WordBytes(x)[0]) == c[0] as nat && Value(WordBytes(x)[1]) == c[1] as nat
    requires Value(WordBytes(x)[2]) == c[2] as nat && Value(WordBytes(x)[3]) == c[3] as nat
    ensures Ascii(s + c) == WordsBytes(w + [x])
  {
    FourCharacters(c, WordBytes(x));
    WordsSnoc(w, x);
    assert Ascii(s + c) == Ascii(s) + Ascii(c);
  }

  lemma FourCharacters(c: string, b: seq<byte>)
    requires |c| == |b| == 4 && Value(b[0]) == c[0] as nat && Value(b[1]) == c[1] as nat
    requires Value(b[2]) == c[2] as nat && Value(b[3]) == c[3] as nat
    ensures Ascii(c) == b
  {
    forall i | 0 <= i < 4 ensures Value(b[i]) == c[i] as nat {
    }
    AsciiIs(c, b);
  }

  /** The sample key. */
  lemma KeySpelled()
    ensures Ascii("dGhlIHNhbXBsZSBub25jZQ==") == WordsBytes(KEY_WORDS)
  {
    var s: string, w: seq<word> := "", [];
    Spell(s, w, "dGhl", 0x6447686c);
    s, w := s + "dGhl", w + [0x6447686c];
    Spell(s, w, "IHNh", 0x49484e68);
    s, w := s + "IHNh", w + [0x49484e68];
    Spell(s, w, "bXBs", 0x62584273);
    s, w := s + "bXBs", w + [0x62584273];
    Spell(s, w, "ZSBu", 0x5a534275);
    s, w := s + "ZSBu", w + [0x5a534275];
    Spell(s, w, "b25j", 0x6232356a);
    s, w := s + "b25j", w + [0x6232356a];
    Spell(s, w, "ZQ==", 0x5a513d3d);
    s, w := s + "ZQ==", w + [0x5a513d3d];
    assert s == "dGhlIHNhbXBsZSBub25jZQ==";
    assert w == KEY_WORDS;
  }

  /** The GUID. */
  lemma GuidSpelled()
    ensures Ascii("258EAFA5-E914-47DA-95CA-C5AB0DC85B11") == WordsBytes(GUID_WORDS)
  {
    var s: string, w: seq<word> := "", [];
    Spell(s, w, "258E", 0x32353845);
    s, w := s + "258E", w + [0x32353845];
    Spell(s, w, "AFA5", 0x41464135);
    s, w := s + "AFA5", w + [0x41464135];
    Spell(s, w, "-E91", 0x2d453931);
    s, w := s + "-E91", w + [0x2d453931];
    Spell(s, w, "4-47", 0x342d3437);
    s, w := s + "4-47", w + [0x342d3437];
    Spell(s, w, "DA-9", 0x44412d39);
    s, w := s + "DA-9", w + [0x44412d39];
    Spell(s, w, "5CA-", 0x3543412d);
    s, w := s + "5CA-", w + [0x3543412d];
    Spell(s, w, "C5AB", 0x43354142);
    s, w := s + "C5AB", w + [0x43354142];
    Spell(s, w, "0DC8", 0x30444338);
    s, w := s + "0DC8", w + [0x30444338];
    Spell(s, w, "5B11", 0x35423131);
    s, w := s + "5B11", w + [0x35423131];
    assert s == "258EAFA5-E914-47DA-95CA-C5AB0DC85B11";
    assert w == GUID_WORDS;
  }

  lemma {:induction false} WordsJoin(v: seq<word>, w: seq<word>)
    ensures WordsBytes(v + w) == WordsBytes(v) + WordsBytes(w)
    decreases |w|
  {
    if w == [] {
      assert v + w == v;
    } else {
      var u, x := w[..|w| - 1], w[|w| - 1];
      WordsJoin(v, u);
      WordsSnoc(v + u, x);
      assert v + u + [x] == v + w;
      Associates(WordsBytes(v), WordsBytes(u), WordBytes(x));
    }
  }

  function Sample(): seq<byte> {
    Ascii("dGhlIHNhbXBsZSBub25jZQ==") + Ascii("258EAFA5-E914-47DA-95CA-C5AB0DC85B11")
  }

  lemma SampleLength()
    ensures Digits(480, 8) == Zeros(4) + WordBytes(0x000001e0)
  {
    FourDigits(480, 1, 0, 0, 4);
    FourDigits(0, 0, 0, 0, 0);
    ToByteIsNumber(480, 0xe0);
    ToByteIsNumber(1, 0x01);
    ToByteIsNumber(0, 0x00);
  }

  lemma {:induction false} WordsOfZeros(k: nat)
    ensures WordsBytes(seq(k, _ => 0)) == Zeros(4 * k)
  {
    if k == 0 {
    } else {
      var w: seq<word> := seq(k, _ => 0);
      assert w[..k - 1] == seq(k - 1, _ => 0);
      WordsOfZeros(k - 1);
    }
  }

  /** Both blocks. */
  lemma SamplePadded()
    ensures Padded(Sample()) == WordsBytes(WORDS_A) + WordsBytes(WORDS_B)
  {
    KeySpelled();
    GuidSpelled();
    SampleLength();
    WordsJoin(KEY_WORDS, GUID_WORDS);
    WordsSnoc(KEY_WORDS + GUID_WORDS, 0x80000000);
    assert WORDS_A == KEY_WORDS + GUID_WORDS + [0x80000000];
    LastBlockWords();
    PadSplit(Sample(), WordBytes(0x000001e0));
  }

  lemma LastBlockWords()
    ensures WordsBytes(WORDS_B) == Zeros(60) + WordBytes(0x000001e0)
  {
    var z: seq<word> := seq(15, _ => 0);
    WordsOfZeros(15);
    WordsSnoc(z, 0x000001e0);
    assert WORDS_B == z + [0x000001e0];
  }

  lemma PadSplit(m: seq<byte>, d: seq<byte>)
    ensures m + [0x80] + Zeros(59) + (Zeros(4) + d) == m + WordBytes(0x80000000) + (Zeros(60) + d)
  {
    assert WordBytes(0x80000000) == [0x80] + Zeros(3);
  }

  lemma FoldTwo(a: seq<byte>, b: seq<byte>)
    requires |a| == 64 && |b| == 64
    ensures Fold(a + b) == Compress(Compress(INITIAL, a), b)
  {
    FoldBlock([], a);
    FoldBlock(a, b);
    assert [] + a == a;
  }

  lemma DigestBytes()
    ensures StateBytes(State(0xb37a4f2c, 0xc0624f16, 0x90f64606, 0xcf385945, 0xb2bec4ea)) == [
      0xb3, 0x7a, 0x4f, 0x2c, 0xc0, 0x62, 0x4f, 0x16, 0x90, 0xf6, 0x46, 0x06, 0xcf, 0x38, 0x59, 0x45, 0xb2,
      0xbe, 0xc4, 0xea]
  {
  }

  /** The published digest. */
  lemma SampleDigest()
    ensures Hash(Sample()) == [
      0xb3, 0x7a, 0x4f, 0x2c, 0xc0, 0x62, 0x4f, 0x16, 0x90, 0xf6, 0x46, 0x06, 0xcf, 0x38, 0x59, 0x45, 0xb2,
      0xbe, 0xc4, 0xea]
  {
    SamplePadded();
    FoldTwo(WordsBytes(WORDS_A), WordsBytes(WORDS_B));
    CompressedA(96);
    SumA();
    CompressedB(96);
    SumB();
    DigestBytes();
  }
}
