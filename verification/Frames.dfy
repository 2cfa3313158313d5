/** WebSocket data frames: what `src/ws_packet.cpp` reads and writes, and the frame format of
    section 5.2 of RFC 6455 as an independent reference. */
module Frames {
  import opened Bytes

  type Key = k: seq<byte> | |k| == 4 witness [0, 0, 0, 0]

  /** XOR with the repeated masking key (section 5.3 of RFC 6455). */
  function Unmask(p: seq<byte>, key: Key): (r: seq<byte>)
    ensures |r| == |p|
    ensures forall i :: 0 <= i < |p| ==> r[i] == p[i] ^ key[i % 4]
  {
    seq(|p|, i requires 0 <= i < |p| => p[i] ^ key[i % 4])
  }

  lemma UnmaskTwice(p: seq<byte>, key: Key)
    ensures Unmask(Unmask(p, key), key) == p
  {
    var q := Unmask(p, key);
    forall i | 0 <= i < |p| ensures Unmask(q, key)[i] == p[i] {
      XorTwice(p[i], key[i % 4]);
    }
  }

  lemma XorTwice(a: byte, b: byte)
    ensures (a ^ b) ^ b == a
  {
  }

  // ---------- the code ----------

  /** What `fetch_frame_info` leaves in the packet, and the offset it reaches. */
  datatype Header = Header(fin: byte, opcode: byte, mask: byte, payloadLength: nat, key: Key, size: nat)

  /** What one call of `recv_dataframe` makes of the buffer: more bytes are needed, an out-of-range
      access is thrown, or a frame of `size` bytes is taken. */
  datatype Decision = Wait | Thrown | Took(size: nat, fin: byte, opcode: byte, payload: seq<byte>)

  function LengthType(b: byte): nat {
    Value(b & 0x7F)
  }

  /** The bytes `buf[at..at + n]` as a number, if they are there, else zero. */
  function NumberAt(buf: seq<byte>, at: nat, n: nat): nat {
    if at + n <= |buf| then BigEndian(buf[at..at + n]) else 0
  }

  /** The offset after trying to read `n` bytes at `at`. */
  function Skip(buf: seq<byte>, at: nat, n: nat): nat {
    if at + n <= |buf| then at + n else at
  }

  /** The payload length of a header of length type `t`, when it was `before`. */
  function LengthAt(buf: seq<byte>, at: nat, t: nat, before: nat): nat {
    if t < 126 then t else if t == 126 then NumberAt(buf, at, 2) else before
  }

  /** The offset after reading the extended length. */
  function LengthEnd(buf: seq<byte>, at: nat, t: nat): nat {
    if t < 126 then at else if t == 126 then Skip(buf, at, 2) else Skip(buf, at, 8)
  }

  /** `fetch_frame_info` on a packet with the masking key `key` and the payload length `before`.  A
      read that fails moves nothing and leaves its target as it was: the second byte is then still
      the first, a 16-bit length is zero, the key is the old one.  The 64-bit length is skipped,
      never stored. */
  function ReadHeaderOnto(buf: seq<byte>, key: Key, before: nat): Header {
    var b0 := if 1 <= |buf| then buf[0] else 0;
    var o1 := Skip(buf, 0, 1);
    var b1 := if o1 + 1 <= |buf| then buf[o1] else b0;
    var o2 := Skip(buf, o1, 1);
    var t := LengthType(b1);
    var o3 := LengthEnd(buf, o2, t);
    var mask := (b1 >> 7) & 0x01;
    var o4 := if mask == 1 then Skip(buf, o3, 4) else o3;
    var key' := if mask == 1 && o3 + 4 <= |buf| then buf[o3..o3 + 4] else key;
    Header(b0 >> 7, b0 & 0x7F, mask, LengthAt(buf, o2, t, before), key', o4)
  }

  /** On a fresh packet, whose key is the uninitialised `junk`. */
  function ReadHeader(buf: seq<byte>, junk: Key): Header {
    ReadHeaderOnto(buf, junk, 0)
  }

  /** What `recv_dataframe` makes of a header; its result 0 on an empty buffer is also a request for
      more bytes. */
  function Decide(buf: seq<byte>, h: Header): (d: Decision)
    requires h.size <= |buf| && (buf != [] ==> h.size > 0)
    ensures d.Took? ==> 0 < d.size <= |buf|
  {
    var end := h.size + h.payloadLength;
    if end > |buf| || buf == [] then Wait
    else if h.mask == 1 then Took(end, h.fin, h.opcode, Unmask(buf[h.size..end], h.key))
    else if h.size == |buf| then Thrown
    else Took(end, h.fin, h.opcode, buf[h.size..end])
  }

  /** `recv_dataframe` on a fresh packet. */
  function Decode(buf: seq<byte>, junk: Key): (d: Decision)
    ensures d.Took? ==> 0 < d.size <= |buf|
  {
    Decide(buf, ReadHeader(buf, junk))
  }

  // ---------- the reference ----------

  function ExtendedBytes(t: nat): nat {
    if t < 126 then 0 else if t == 126 then 2 else 8
  }

  predicate Masked(b1: byte) {
    (b1 & 0x80) != 0
  }

  function HeaderLength(b1: byte): nat {
    2 + ExtendedBytes(LengthType(b1)) + if Masked(b1) then 4 else 0
  }

  predicate HeaderWhole(buf: seq<byte>) {
    2 <= |buf| && HeaderLength(buf[1]) <= |buf|
  }

  function DeclaredLength(buf: seq<byte>): nat
    requires 2 <= |buf| && 2 + ExtendedBytes(LengthType(buf[1])) <= |buf|
  {
    var t := LengthType(buf[1]);
    if t < 126 then t else BigEndian(buf[2..2 + ExtendedBytes(t)])
  }

  function FrameLength(buf: seq<byte>): nat
    requires HeaderWhole(buf)
  {
    HeaderLength(buf[1]) + DeclaredLength(buf)
  }

  /** The bits of the two first bytes, in numbers. */
  lemma ByteNumbers(b: byte)
    ensures LengthType(b) == b as nat % 128 && (Masked(b) <==> b as nat >= 128)
    ensures (b & 0x7F) as nat == b as nat % 128 && ((b & 0x80) != 0 <==> b as nat >= 128)
  {
    LowBits(b);
    ValueIsNumber(b & 0x7F);
  }

  lemma LowBits(b: byte)
    ensures b < 128 ==> (b & 0x7F) == b && (b & 0x80) == 0
    ensures b >= 128 ==> (b & 0x7F) == b - 128 && (b & 0x80) != 0
  {
  }

  /** The length of a header, in numbers. */
  lemma HeaderNumbers(b: byte)
    ensures HeaderLength(b) == (if b as nat % 128 < 126 then 2 else if b as nat % 128 == 126 then 4 else 10)
                               + if b as nat >= 128 then 4 else 0
  {
    ByteNumbers(b);
  }

  /** The first frame of `buf` by section 5.2 of RFC 6455, once all its bytes are there.  The
      opcode is given with the three reserved bits above it. */
  function Reference(buf: seq<byte>): (d: Decision)
    ensures d.Took? ==> 0 < d.size <= |buf|
  {
    if !HeaderWhole(buf) || |buf| < FrameLength(buf) then Wait
    else
      var h, end := HeaderLength(buf[1]), FrameLength(buf);
      var data := buf[h..end];
      Took(end, if (buf[0] & 0x80) != 0 then 1 else 0, buf[0] & 0x7F,
           if Masked(buf[1]) then Unmask(data, buf[h - 4..h]) else data)
  }

  // ---------- where they agree ----------

  /** Of a header that may be cut short, the code reads the announced length right and does not
      take the frame early; it does not lose a 64-bit length; it does not touch the byte after an
      empty unmasked frame at the end of the buffer. */
  predicate Trusted(buf: seq<byte>) {
    if buf == [] then true
    else if |buf| == 1 then 0 < LengthType(buf[0]) < 126
    else
      var t, h := LengthType(buf[1]), HeaderLength(buf[1]);
      && 2 + ExtendedBytes(t) <= |buf|
      && (|buf| < h ==> t != 127 && |buf| < 2 + ExtendedBytes(t) + DeclaredLength(buf))
      && (t == 127 ==> DeclaredLength(buf) == 0)
      && !(|buf| == h && DeclaredLength(buf) == 0 && !Masked(buf[1]))
  }

  lemma TopBit(b: byte)
    ensures (b >> 7) & 0x01 == 1 <==> Masked(b)
    ensures (b >> 7) == if (b & 0x80) != 0 then 1 else 0
    ensures LengthType(b) < 128
  {
  }

  lemma SliceStable(buf: seq<byte>, more: seq<byte>, i: nat, j: nat)
    requires i <= j <= |buf|
    ensures (buf + more)[i..j] == buf[i..j]
  {
  }

  lemma HeaderStable(buf: seq<byte>, more: seq<byte>)
    requires HeaderWhole(buf)
    ensures HeaderWhole(buf + more) && FrameLength(buf + more) == FrameLength(buf)
  {
    SliceStable(buf, more, 2, 2 + ExtendedBytes(LengthType(buf[1])));
  }

  lemma ReadHeaderStable(buf: seq<byte>, more: seq<byte>, junk: Key)
    requires HeaderWhole(buf)
    ensures ReadHeader(buf + more, junk) == ReadHeader(buf, junk)
    ensures ReadHeader(buf, junk).size == HeaderLength(buf[1])
  {
    var h, e := HeaderLength(buf[1]), 2 + ExtendedBytes(LengthType(buf[1]));
    TopBit(buf[1]);
    SliceStable(buf, more, 2, e);
    if Masked(buf[1]) {
      SliceStable(buf, more, e, h);
    }
  }

  /** A header cut short is read as ending before the whole header does, or as announcing nothing. */
  lemma CutHeader(buf: seq<byte>, junk: Key)
    requires 2 <= |buf| && !HeaderWhole(buf)
    ensures var h, x := ReadHeader(buf, junk), 2 + ExtendedBytes(LengthType(buf[1]));
            && h.size < HeaderLength(buf[1])
            && h.payloadLength <= if x <= |buf| && LengthType(buf[1]) != 127 then DeclaredLength(buf) else 0
  {
    TopBit(buf[1]);
  }

  lemma WholeHeader(buf: seq<byte>, junk: Key)
    requires HeaderWhole(buf)
    ensures ReadHeader(buf, junk).size == HeaderLength(buf[1])
    ensures LengthType(buf[1]) != 127 ==> ReadHeader(buf, junk).payloadLength == DeclaredLength(buf)
  {
    TopBit(buf[1]);
    ReadHeaderStable(buf, [], junk);
  }

  /** A header that is all there is read whole, but for a 64-bit length. */
  lemma WholeHeaderIs(buf: seq<byte>, junk: Key)
    requires HeaderWhole(buf)
    ensures var h := HeaderLength(buf[1]);
            ReadHeader(buf, junk) ==
            Header(if (buf[0] & 0x80) != 0 then 1 else 0, buf[0] & 0x7F, if Masked(buf[1]) then 1 else 0,
                   if LengthType(buf[1]) == 127 then 0 else DeclaredLength(buf),
                   if Masked(buf[1]) then buf[h - 4..h] else junk, h)
  {
    TopBit(buf[0]);
    TopBit(buf[1]);
  }

  lemma AgreesWhole(buf: seq<byte>, junk: Key)
    requires HeaderWhole(buf)
    ensures Decode(buf, junk) == Reference(buf) <==> Trusted(buf)
  {
    WholeHeaderIs(buf, junk);
  }

  lemma AgreesCut(buf: seq<byte>, junk: Key)
    requires 2 <= |buf| && !HeaderWhole(buf)
    ensures Decode(buf, junk) == Reference(buf) <==> Trusted(buf)
  {
    TopBit(buf[1]);
    CutHeader(buf, junk);
  }

  /** `recv_dataframe` decides as the reference does exactly on trusted buffers. */
  lemma DecodeAgrees(buf: seq<byte>, junk: Key)
    ensures Decode(buf, junk) == Reference(buf) <==> Trusted(buf)
  {
    if |buf| > 1 {
      if HeaderWhole(buf) {
        AgreesWhole(buf, junk);
      } else {
        AgreesCut(buf, junk);
      }
    } else if |buf| == 1 {
      TopBit(buf[0]);
    }
  }

  /** The seven bits are the opcode exactly when the reserved bits are zero. */
  lemma ReservedBits(b: byte)
    ensures (b & 0x7F) == (b & 0x0F) <==> (b & 0x70) == 0
  {
  }

  /** Two frames taken from one buffer are the same as soon as they have the same size. */
  lemma SameSizeSameFrame(buf: seq<byte>, junk: Key)
    requires Decode(buf, junk).Took? && Reference(buf).Took?
    requires Decode(buf, junk).size == Reference(buf).size
    ensures Decode(buf, junk) == Reference(buf)
  {
    TopBit(buf[1]);
    ReadHeaderStable(buf, [], junk);
    DecodeAgrees(buf, junk);
  }

  /** Taking a frame whose header is whole is not changed by bytes that follow. */
  lemma DecisionStable(buf: seq<byte>, more: seq<byte>, junk: Key)
    requires HeaderWhole(buf) && Decode(buf, junk).Took?
    ensures Decode(buf + more, junk) == Decode(buf, junk)
  {
    ReadHeaderStable(buf, more, junk);
    var h := ReadHeader(buf, junk);
    SliceStable(buf, more, h.size, h.size + h.payloadLength);
  }

  /** An empty unmasked frame of `n` bytes. */
  predicate Bare(buf: seq<byte>, n: nat) {
    2 <= |buf| && n == HeaderLength(buf[1]) && !Masked(buf[1])
  }

  /** A frame taken is taken as well from fewer bytes that still hold it, unless it is bare and the
      bytes end with it. */
  lemma DecisionEarlier(buf: seq<byte>, n: nat, junk: Key)
    requires HeaderWhole(buf) && Decode(buf, junk).Took? && Decode(buf, junk).size <= n <= |buf|
    requires !(Decode(buf, junk).size == n && Bare(buf, n))
    ensures HeaderWhole(buf[..n]) && Decode(buf[..n], junk) == Decode(buf, junk)
  {
    var part, rest := buf[..n], buf[n..];
    assert part + rest == buf;
    WholeHeader(buf, junk);
    ReadHeaderStable(part, rest, junk);
    TopBit(buf[1]);
    DecisionStable(part, rest, junk);
  }

  /** Bytes that hold a whole header but end before the frame does are not enough. */
  lemma PartWaits(buf: seq<byte>, n: nat, junk: Key)
    requires n <= |buf| && HeaderWhole(buf[..n])
    requires Decode(buf, junk).Wait? || (Decode(buf, junk).Took? && n < Decode(buf, junk).size)
    ensures Decode(buf[..n], junk) == Wait
  {
    var part, rest := buf[..n], buf[n..];
    assert part + rest == buf;
    ReadHeaderStable(part, rest, junk);
  }

  lemma ReferenceStable(buf: seq<byte>, more: seq<byte>)
    requires Reference(buf).Took?
    ensures Reference(buf + more) == Reference(buf)
  {
    HeaderStable(buf, more);
    var h := HeaderLength(buf[1]);
    SliceStable(buf, more, h, FrameLength(buf));
    if Masked(buf[1]) {
      SliceStable(buf, more, h - 4, h);
    }
  }

  // ---------- packing ----------

  /** The fields `pack_dataframe` reads. */
  datatype Outgoing = Outgoing(fin: byte, rsv1: byte, rsv2: byte, rsv3: byte, opcode: byte, mask: byte,
                               key: Key, payload: seq<byte>)

  /** `get_length_type`. */
  function LengthTypeFor(n: nat): (t: nat)
    ensures t < 128
  {
    if n < 126 then n else if n <= 0xFFFF then 126 else 127
  }

  /** The header size `get_header_size` computes and means to return. */
  function HeaderSizeFor(n: nat, mask: byte): nat {
    (if LengthTypeFor(n) < 126 then 2 else if LengthTypeFor(n) == 126 then 4 else 2 + 8)
    + if mask == 1 then 4 else 0
  }

  function FirstByte(f: Outgoing): byte {
    (f.fin << 7) | (f.rsv1 << 6) | (f.rsv2 << 5) | (f.rsv3 << 4) | (f.opcode & 0x0F)
  }

  function PackedHeader(f: Outgoing): seq<byte> {
    var t := LengthTypeFor(|f.payload|);
    [FirstByte(f), (f.mask << 7) | ToByte(t)] + Digits(|f.payload|, ExtendedBytes(t))
    + if f.mask == 1 then f.key else []
  }

  /** `pack_dataframe`. */
  function Pack(f: Outgoing): seq<byte> {
    PackedHeader(f) + if f.mask == 1 then Unmask(f.payload, f.key) else f.payload
  }

  /** The fields fit the bits they have in a frame. */
  predicate FitsFrame(f: Outgoing) {
    f.fin <= 1 && f.rsv1 <= 1 && f.rsv2 <= 1 && f.rsv3 <= 1 && f.opcode <= 15 && f.mask <= 1
    && |f.payload| < Power256(8)
  }

  function SevenBits(f: Outgoing): byte {
    (f.rsv1 << 6) | (f.rsv2 << 5) | (f.rsv3 << 4) | f.opcode
  }

  /** The reserved bits weigh 64, 32 and 16. */
  lemma SevenBitsNumber(f: Outgoing)
    requires FitsFrame(f)
    ensures SevenBits(f) as nat == 64 * f.rsv1 as nat + 32 * f.rsv2 as nat + 16 * f.rsv3 as nat + f.opcode as nat
  {
    SevenBitsSum(f);
  }

  lemma SevenBitsSum(f: Outgoing)
    requires FitsFrame(f)
    ensures SevenBits(f) == (if f.rsv1 == 1 then 64 else 0) + (if f.rsv2 == 1 then 32 else 0)
                            + (if f.rsv3 == 1 then 16 else 0) + f.opcode
  {
  }

  lemma PackedFirst(f: Outgoing)
    requires FitsFrame(f)
    ensures (FirstByte(f) & 0x7F) == SevenBits(f)
    ensures (if (FirstByte(f) & 0x80) != 0 then 1 else 0) == f.fin
  {
  }

  lemma SmallByte(t: nat)
    requires t < 128
    ensures ToByte(t) < 128
  {
  }

  lemma PackedSecond(mask: byte, t: nat)
    requires mask <= 1 && t < 128
    ensures LengthType((mask << 7) | ToByte(t)) == t
    ensures Masked((mask << 7) | ToByte(t)) <==> mask == 1
  {
    SmallByte(t);
    SecondBits(mask, ToByte(t));
  }

  lemma SecondBits(mask: byte, b: byte)
    requires mask <= 1 && b < 128
    ensures (((mask << 7) | b) & 0x7F) == b
    ensures (((mask << 7) | b) & 0x80) != 0 <==> mask == 1
  {
  }

  lemma LengthFits(n: nat)
    requires n < Power256(8) && 126 <= LengthTypeFor(n)
    ensures BigEndian(Digits(n, ExtendedBytes(LengthTypeFor(n)))) == n
  {
    assert Power256(2) == 65536;
    DigitsBigEndian(n, ExtendedBytes(LengthTypeFor(n)));
  }

  lemma PackedLength(f: Outgoing, rest: seq<byte>)
    ensures var b, e := PackedHeader(f) + rest, ExtendedBytes(LengthTypeFor(|f.payload|));
            2 + e <= |b| && b[2..2 + e] == Digits(|f.payload|, e)
  {
  }

  lemma PackedShape(f: Outgoing, rest: seq<byte>)
    ensures var b, t := PackedHeader(f) + rest, LengthTypeFor(|f.payload|);
            var h := 2 + ExtendedBytes(t) + if f.mask == 1 then 4 else 0;
            && h == |PackedHeader(f)| == HeaderSizeFor(|f.payload|, f.mask)
            && b[0] == FirstByte(f) && b[1] == (f.mask << 7) | ToByte(t)
            && (f.mask == 1 ==> b[h - 4..h] == f.key)
  {
  }

  lemma PackedHeaderReads(f: Outgoing, rest: seq<byte>)
    requires FitsFrame(f)
    ensures var b := PackedHeader(f) + rest; var h := |PackedHeader(f)|;
            && HeaderWhole(b) && HeaderLength(b[1]) == h == HeaderSizeFor(|f.payload|, f.mask)
            && DeclaredLength(b) == |f.payload|
            && b[0] == FirstByte(f) && (Masked(b[1]) <==> f.mask == 1)
            && (f.mask == 1 ==> b[h - 4..h] == f.key)
            && LengthType(b[1]) == LengthTypeFor(|f.payload|)
  {
    PackedShape(f, rest);
    PackedSecond(f.mask, LengthTypeFor(|f.payload|));
    PackedLength(f, rest);
    if 126 <= LengthTypeFor(|f.payload|) {
      LengthFits(|f.payload|);
    }
  }

  lemma PackSplit(f: Outgoing, data: seq<byte>, rest: seq<byte>)
    requires data == if f.mask == 1 then Unmask(f.payload, f.key) else f.payload
    ensures var h := |PackedHeader(f)|;
            Pack(f) + rest == PackedHeader(f) + (data + rest) && (Pack(f) + rest)[h..h + |data|] == data
  {
  }

  /** What is packed is what the reference reads back, whatever follows. */
  lemma PackReference(f: Outgoing, rest: seq<byte>)
    requires FitsFrame(f)
    ensures Reference(Pack(f) + rest) == Took(|Pack(f)|, f.fin, SevenBits(f), f.payload)
    ensures |Pack(f)| == HeaderSizeFor(|f.payload|, f.mask) + |f.payload|
  {
    var data := if f.mask == 1 then Unmask(f.payload, f.key) else f.payload;
    PackSplit(f, data, rest);
    PackedHeaderReads(f, data + rest);
    PackedFirst(f);
    UnmaskTwice(f.payload, f.key);
  }

  /** The code reads back what it packed exactly when the payload has at most 65535 bytes and the
      frame is not an empty unmasked one at the very end of the buffer. */
  lemma PackDecode(f: Outgoing, rest: seq<byte>, junk: Key)
    requires FitsFrame(f)
    ensures Decode(Pack(f) + rest, junk) == Took(|Pack(f)|, f.fin, SevenBits(f), f.payload)
            <==> |f.payload| <= 65535 && (f.mask == 1 || f.payload != [] || rest != [])
  {
    var data := if f.mask == 1 then Unmask(f.payload, f.key) else f.payload;
    PackSplit(f, data, rest);
    PackedHeaderReads(f, data + rest);
    PackReference(f, rest);
    DecodeAgrees(Pack(f) + rest, junk);
  }

  /** The shortest of the three length forms is used, and a masked frame is four bytes longer. */
  lemma PackedSize(f: Outgoing)
    ensures |Pack(f)| == |f.payload| + (if f.mask == 1 then 4 else 0)
                         + (if |f.payload| <= 125 then 2 else if |f.payload| <= 65535 then 4 else 10)
  {
    PackedShape(f, []);
  }
}
