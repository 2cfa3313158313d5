/** One packet and the buffers it is read from and written to (`WebSocketPacket` in
    `src/ws_packet.cpp`), against the decisions of `Frames` and `Handshake`. */
module Packets {
  import opened Bytes
  import opened Text
  import opened Frames
  import opened Handshake
  import opened ByteBuffers
  import Base64
  import Sha1

  lemma TwoBytes(a: byte, b: byte)
    ensures BigEndian([a, b]) == Value(a) * 256 + Value(b)
    ensures BigEndian([0, 0]) == 0
  {
    assert [a, b][..1] == [a] && [a][..0] == [];
    BigEndianZeros(2);
    assert seq(2, _ => 0 as byte) == [0, 0];
  }

  /** The low byte of `n` shifted right by `k` bytes. */
  function Shifted(n: nat, k: nat): byte {
    if k == 0 then ToByte(n) else Shifted(n / 256, k - 1)
  }

  /** The shifts yield the big-endian digits. */
  lemma {:induction false} DigitShifted(n: nat, k: nat, i: nat)
    requires i < k
    ensures Digits(n, k)[k - 1 - i] == Shifted(n, i)
  {
    if i == 0 {
    } else {
      DigitShifted(n / 256, k - 1, i - 1);
    }
  }

  lemma OrZero(b: byte)
    ensures 0 | b == b
  {
  }

  /** The second byte and the extended length. */
  function LengthBytes(n: nat, mask: byte): seq<byte> {
    var t := LengthTypeFor(n);
    [(mask << 7) | ToByte(t)] + Digits(n, ExtendedBytes(t))
  }

  /** The masked bytes `i` to `n` of what is read from `data` at the offset `oft`; behind its end a
      read fails, and the `last` byte written is masked once more. */
  function MaskedFrom(data: seq<byte>, oft: nat, key: Key, i: nat, n: nat, last: byte): (r: seq<byte>)
    requires i <= n
    ensures |r| == n - i
    decreases n - i
  {
    if i == n then []
    else
      var v := (if oft + i < |data| then data[oft + i] else last) ^ key[i % 4];
      [v] + MaskedFrom(data, oft, key, i + 1, n, v)
  }

  /** A payload read from its start for its whole length is masked as section 5.3 of RFC 6455 says. */
  lemma {:induction false} MaskedWhole(data: seq<byte>, key: Key, i: nat, last: byte)
    requires i <= |data|
    ensures MaskedFrom(data, 0, key, i, |data|, last) == Unmask(data, key)[i..]
    decreases |data| - i
  {
    if i == |data| {
    } else {
      MaskedWhole(data, key, i + 1, Unmask(data, key)[i]);
    }
  }

  /** `pack_dataframe` for a declared length `n` and a payload whose offset is `oft`. */
  function PackAs(f: Outgoing, n: nat, oft: nat): seq<byte> {
    [FirstByte(f)] + LengthBytes(n, f.mask)
    + if f.mask == 1 then f.key + MaskedFrom(f.payload, oft, f.key, 0, n, 0) else f.payload
  }

  /** With the right length and, for a masked frame, the payload still unread, this is the frame. */
  lemma PackAsFrame(f: Outgoing, oft: nat)
    requires f.mask == 1 ==> oft == 0
    ensures PackAs(f, |f.payload|, oft) == Pack(f)
  {
    var l := LengthBytes(|f.payload|, f.mask);
    assert PackedHeader(f) == [FirstByte(f)] + l + if f.mask == 1 then f.key else [];
    if f.mask == 1 {
      MaskedWhole(f.payload, f.key, 0, 0);
    }
  }

  lemma Assembled(o: seq<byte>, a: seq<byte>, b: seq<byte>, c: seq<byte>, d: seq<byte>)
    ensures o + a + b + c == o + (a + b + c)
    ensures o + a + b + c + d == o + (a + b + (c + d))
  {
  }

  lemma TwoDigits(n: nat)
    ensures Digits(n, 2) == [Shifted(n, 1), Shifted(n, 0)]
  {
    DigitShifted(n, 2, 1);
    DigitShifted(n, 2, 0);
  }

  lemma EightShifted(n: nat)
    ensures Digits(n, 8) == [Shifted(n, 7), Shifted(n, 6), Shifted(n, 5), Shifted(n, 4),
                             Shifted(n, 3), Shifted(n, 2), Shifted(n, 1), Shifted(n, 0)]
  {
    forall i: nat | i < 8 ensures Digits(n, 8)[7 - i] == Shifted(n, i) {
      DigitShifted(n, 8, i);
    }
  }

  lemma AppendEight(s: seq<byte>, a: byte, b: byte, c: byte, d: byte, e: byte, f: byte, g: byte, h: byte)
    ensures s + [a] + [b] + [c] + [d] + [e] + [f] + [g] + [h] == s + [a, b, c, d, e, f, g, h]
  {
  }

  lemma SecondRead(buf: seq<byte>, b0: byte, b1: byte)
    requires b1 == if 2 <= |buf| then buf[1] else b0
    ensures var o1 := Skip(buf, 0, 1); b1 == if o1 + 1 <= |buf| then buf[o1] else b0
  {
  }

  /** The header put together from what each read yields. */
  lemma HeaderParts(buf: seq<byte>, key: Key, before: nat, b0: byte, b1: byte, o2: nat, t: nat, n: nat, o3: nat,
                    h: Header)
    requires b0 == if 1 <= |buf| then buf[0] else 0
    requires b1 == if 2 <= |buf| then buf[1] else b0
    requires o2 == Skip(buf, Skip(buf, 0, 1), 1) && t == LengthType(b1) < 128
    requires n == LengthAt(buf, o2, t, before) && o3 == LengthEnd(buf, o2, t)
    requires h.fin == b0 >> 7 && h.opcode == b0 & 0x7F && h.mask == (b1 >> 7) & 0x01 && h.payloadLength == n
    requires h.size == if h.mask == 1 then Skip(buf, o3, 4) else o3
    requires h.key == if h.mask == 1 && o3 + 4 <= |buf| then buf[o3..o3 + 4] else key
    ensures ReadHeaderOnto(buf, key, before) == h
  {
    SecondRead(buf, b0, b1);
  }

  lemma NextMasked(out: seq<byte>, data: seq<byte>, oft: nat, key: Key, i: nat, n: nat, last: byte, v: byte)
    requires i < n && v == (if oft + i < |data| then data[oft + i] else last) ^ key[i % 4]
    ensures out + MaskedFrom(data, oft, key, i, n, last) == out + [v] + MaskedFrom(data, oft, key, i + 1, n, v)
  {
  }

  lemma NothingAfter<T>(s: seq<T>)
    ensures s + [] == s
  {
  }

  lemma NothingBefore<T>(s: seq<T>)
    ensures [] + s == s
  {
  }

  /** The error of a request with the wrong header fields. */
  const INVALID_PARAMS := 10070

  class WebSocketPacket {
    var fin: byte
    var rsv1: byte
    var rsv2: byte
    var rsv3: byte
    var opcode: byte
    var mask: byte
    var lengthType: byte
    var maskingKey: Key
    var payloadLength: nat
    var hsLength: nat
    var verb: seq<byte>
    var uri: seq<byte>
    var version: seq<byte>
    var params: Params
    const payload: ByteBuffer

    /** Nothing has been read or set yet; the masking key is whatever `junk` there was. */
    predicate Unused(junk: Key)
      reads this, payload
    {
      && fin == 0 && rsv1 == 0 && rsv2 == 0 && rsv3 == 0 && opcode == 0 && mask == 0
      && maskingKey == junk && payloadLength == 0 && hsLength == 0 && params == map[]
      && payload.data == [] && payload.oft == 0
    }

    constructor (junk: Key)
      ensures Unused(junk) && fresh(payload)
    {
      fin, rsv1, rsv2, rsv3, opcode, mask, lengthType := 0, 0, 0, 0, 0, 0, 0;
      maskingKey := junk;
      payloadLength, hsLength := 0, 0;
      verb, uri, version, params := [], [], [], map[];
      payload := new ByteBuffer();
    }

    // ---------- receiving a data frame ----------

    /** The fields as `ReadHeader` gives them. */
    function HeaderRead(size: nat): Header
      reads this
    {
      Header(fin, opcode, mask, payloadLength, maskingKey, size)
    }

    /** The two first bytes. */
    method FetchFlags(input: ByteBuffer)
      requires input.Valid() && input.oft == 0
      modifies `fin, `opcode, `mask, `lengthType, input`oft
      ensures input.Valid()
      ensures input.oft == Skip(input.data, Skip(input.data, 0, 1), 1)
      ensures var b0 := if 1 <= |input.data| then input.data[0] else 0;
              var b1 := if 2 <= |input.data| then input.data[1] else b0;
              && fin == b0 >> 7 && opcode == b0 & 0x7F
              && mask == (b1 >> 7) & 0x01 && lengthType == b1 & 0x7F && Value(lengthType) < 128
    {
      var onebyte: byte := 0;
      var r := input.ReadBytesX(1);
      if r.Got? {
        onebyte := r.bytes[0];
      }
      fin := onebyte >> 7;
      opcode := onebyte & 0x7F;
      r := input.ReadBytesX(1);
      if r.Got? {
        onebyte := r.bytes[0];
      }
      mask := (onebyte >> 7) & 0x01;
      lengthType := onebyte & 0x7F;
      TopBit(onebyte);
    }

    /** The extended length; the 64-bit one is read and dropped. */
    method FetchLength(input: ByteBuffer)
      requires input.Valid() && Value(lengthType) < 128
      modifies this`payloadLength, input`oft
      ensures input.Valid()
      ensures payloadLength == LengthAt(input.data, old(input.oft), Value(lengthType), old(payloadLength))
      ensures input.oft == LengthEnd(input.data, old(input.oft), Value(lengthType))
    {
      var t := Value(lengthType);
      if t < 126 {
        payloadLength := t;
      } else if t == 126 {
        var len: seq<byte> := [0, 0];
        var r := input.ReadBytesX(2);
        if r.Got? {
          len := r.bytes;
        }
        payloadLength := Value(len[0]) * 256 + Value(len[1]);
        TwoBytes(len[0], len[1]);
        assert r.Got? ==> r.bytes == [r.bytes[0], r.bytes[1]];
      } else if t == 127 {
        var r := input.ReadBytesX(8);
      }
    }

    method FetchMaskingKey(input: ByteBuffer)
      requires input.Valid()
      modifies this`maskingKey, input`oft
      ensures input.Valid()
      ensures var o := old(input.oft);
              && input.oft == (if mask == 1 then Skip(input.data, o, 4) else o)
              && maskingKey == if mask == 1 && o + 4 <= |input.data| then input.data[o..o + 4] else old(maskingKey)
    {
      if mask == 1 {
        var r := input.ReadBytesX(4);
        if r.Got? {
          maskingKey := r.bytes;
        }
      }
    }

    method FetchFrameInfo(input: ByteBuffer) returns (size: nat)
      requires input.Valid() && input.oft == 0
      modifies `fin, `opcode, `mask, `lengthType, `payloadLength, `maskingKey, input`oft
      ensures input.Valid()
      ensures size == input.oft
      ensures HeaderRead(size) == ReadHeaderOnto(input.data, old(maskingKey), old(payloadLength))
    {
      ghost var buf := input.data;
      ghost var b0 := if 1 <= |buf| then buf[0] else 0;
      ghost var b1 := if 2 <= |buf| then buf[1] else b0;
      FetchFlags(input);
      ghost var o2 := input.oft;
      FetchLength(input);
      ghost var o3 := input.oft;
      FetchMaskingKey(input);
      size := input.oft;
      HeaderParts(buf, old(maskingKey), old(payloadLength), b0, b1, o2, Value(lengthType), payloadLength, o3,
                  HeaderRead(size));
    }

    /** The loop of `fetch_payload`, byte by byte. */
    method FetchMasked(input: ByteBuffer)
      requires input.Valid() && payload != input && |payload.data| + payloadLength <= INT_MAX
      requires input.oft + payloadLength <= |input.data|
      modifies payload`data, input`oft
      ensures input.Valid() && input.oft == old(input.oft) + payloadLength
      ensures payload.data == old(payload.data) + Unmask(input.data[old(input.oft)..input.oft], maskingKey)
    {
      var i := 0;
      ghost var o := input.oft;
      ghost var p := Unmask(input.data[o..o + payloadLength], maskingKey);
      while i < payloadLength
        invariant 0 <= i <= payloadLength && input.Valid()
        invariant input.oft == o + i
        invariant payload.data == old(payload.data) + p[..i]
      {
        var r := input.ReadBytesX(1);
        payload.Append([r.bytes[0] ^ maskingKey[i % 4]]);
        assert p[..i + 1] == p[..i] + [p[i]];
        i := i + 1;
      }
    }

    /** The payload, or the exception of `curat` behind the last byte. */
    method FetchPayload(input: ByteBuffer) returns (thrown: bool)
      requires input.Valid() && payload != input && |payload.data| + payloadLength <= INT_MAX
      requires input.oft + payloadLength <= |input.data|
      modifies payload`data, input`oft
      ensures input.Valid()
      ensures thrown == (mask != 1 && input.data != [] && old(input.oft) == |input.data|)
      ensures !thrown ==> input.oft == old(input.oft) + payloadLength
      ensures !thrown ==>
        var p := input.data[old(input.oft)..input.oft];
        payload.data == old(payload.data) + if mask == 1 then Unmask(p, maskingKey) else p
    {
      thrown := false;
      if mask == 1 {
        FetchMasked(input);
      } else {
        match input.Curat()
        case OutOfRange =>
          thrown := true;
          return;
        case Null =>
        case At(o) =>
          payload.Append(input.data[o..o + payloadLength]);
        var ok := input.SkipX(payloadLength);
      }
    }

    /** What a call of `recv_dataframe` reports and leaves behind for a decision, when the packet
        held the payload `before`. */
    predicate Received(d: Decision, before: seq<byte>, input: ByteBuffer, n: nat, thrown: bool)
      reads this, payload, input
    {
      match d
      case Wait => n == 0 && !thrown && input.oft == 0
      case Thrown => thrown
      case Took(size, f, o, p) =>
        n == size && !thrown && input.oft == size && fin == f && opcode == o && payload.data == before + p
    }

    lemma HeaderInside(buf: seq<byte>, key: Key, before: nat)
      ensures var h := ReadHeaderOnto(buf, key, before);
              h.size <= |buf| && (buf != [] ==> h.size > 0) && (buf == [] ==> h.payloadLength == 0 && h.mask == 0)
    {
      TopBit(0);
    }

    /** The sum with the header size does not leave 64 bits. */
    method RecvDataframe(input: ByteBuffer) returns (n: nat, thrown: bool)
      requires input.Valid() && input.oft == 0 && payload != input && |payload.data| + |input.data| <= INT_MAX
      requires payloadLength + 14 < TWO32 * TWO32
      modifies `fin, `opcode, `mask, `lengthType, `payloadLength, `maskingKey, payload`data, input`oft
      ensures input.Valid()
      ensures var h := ReadHeaderOnto(input.data, old(maskingKey), old(payloadLength));
              && h.size <= |input.data| && (input.data != [] ==> h.size > 0)
              && Received(Decide(input.data, h), old(payload.data), input, n, thrown)
    {
      HeaderInside(input.data, maskingKey, payloadLength);
      var size := FetchFrameInfo(input);
      n, thrown := 0, false;
      if payloadLength + size > |input.data| {
        input.ResetOft();
        return;
      }
      thrown := FetchPayload(input);
      n := input.oft;
    }

    // ---------- packing a data frame ----------

    method SetPayload(bytes: seq<byte>)
      requires |payload.data| + |bytes| <= INT_MAX
      modifies payload`data, this`payloadLength
      ensures payload.data == old(payload.data) + bytes && payloadLength == |payload.data|
    {
      payload.Append(bytes);
      payloadLength := |payload.data|;
    }

    /** `get_header_size`, with the result it computes and forgets to return. */
    method GetHeaderSize() returns (size: nat)
      ensures size == HeaderSizeFor(payloadLength, mask)
      ensures FitsFrame(Fields()) && payloadLength == |payload.data| ==> |Pack(Fields())| == size + payloadLength
    {
      size := 0;
      if LengthTypeFor(payloadLength) < 126 {
        size := 2;
      } else if LengthTypeFor(payloadLength) == 126 {
        size := 4;
      } else if LengthTypeFor(payloadLength) == 127 {
        size := 2 + 8;
      }
      if mask == 1 {
        size := size + 4;
      }
      if FitsFrame(Fields()) {
        PackReference(Fields(), []);
      }
    }

    function Fields(): Outgoing
      reads this, payload
    {
      Outgoing(fin, rsv1, rsv2, rsv3, opcode, mask, maskingKey, payload.data)
    }

    method FlagByte() returns (onebyte: byte)
      ensures onebyte == FirstByte(Fields())
    {
      OrZero(fin << 7);
      onebyte := 0;
      onebyte := onebyte | (fin << 7);
      onebyte := onebyte | (rsv1 << 6);
      onebyte := onebyte | (rsv2 << 5);
      onebyte := onebyte | (rsv3 << 4);
      onebyte := onebyte | (opcode & 0x0F);
    }

    method LengthByte(lengthType: nat) returns (onebyte: byte)
      requires lengthType == LengthTypeFor(payloadLength)
      ensures onebyte == (mask << 7) | ToByte(lengthType)
    {
      OrZero(mask << 7);
      onebyte := 0;
      onebyte := onebyte | (mask << 7);
      if lengthType < 126 {
        onebyte := onebyte | ToByte(payloadLength);
      } else {
        onebyte := onebyte | ToByte(lengthType);
      }
    }

    /** The second byte and the extended length. */
    method PackLength(output: ByteBuffer)
      requires |output.data| + 9 <= INT_MAX
      modifies output`data
      ensures output.data == old(output.data) + LengthBytes(payloadLength, mask)
    {
      var lengthType := LengthTypeFor(payloadLength);
      var onebyte := LengthByte(lengthType);
      output.Append([onebyte]);
      Associates(old(output.data), [onebyte], Digits(payloadLength, ExtendedBytes(lengthType)));
      if lengthType == 126 {
        PutTwo(output, payloadLength);
      } else if lengthType == 127 {
        PutEight(output, payloadLength);
      }
    }

    method PutTwo(output: ByteBuffer, n: nat)
      requires |output.data| + 2 <= INT_MAX
      modifies output`data
      ensures output.data == old(output.data) + Digits(n, 2)
    {
      TwoDigits(n);
      output.Append([Shifted(n, 1)]);
      output.Append([Shifted(n, 0)]);
    }

    method PutEight(output: ByteBuffer, n: nat)
      requires |output.data| + 8 <= INT_MAX
      modifies output`data
      ensures output.data == old(output.data) + Digits(n, 8)
    {
      output.Append([Shifted(n, 7)]);
      output.Append([Shifted(n, 6)]);
      output.Append([Shifted(n, 5)]);
      output.Append([Shifted(n, 4)]);
      output.Append([Shifted(n, 3)]);
      output.Append([Shifted(n, 2)]);
      output.Append([Shifted(n, 1)]);
      output.Append([Shifted(n, 0)]);
      EightShifted(n);
      AppendEight(old(output.data), Shifted(n, 7), Shifted(n, 6), Shifted(n, 5), Shifted(n, 4),
                  Shifted(n, 3), Shifted(n, 2), Shifted(n, 1), Shifted(n, 0));
    }

    /** The loop over the payload of a masked frame; a read that fails leaves the byte as it was. */
    method PackMasked(output: ByteBuffer)
      requires payload.Valid() && output != payload && |output.data| + payloadLength <= INT_MAX
      modifies output`data, payload`oft
      ensures payload.Valid()
      ensures output.data == old(output.data)
                             + MaskedFrom(payload.data, old(payload.oft), maskingKey, 0, payloadLength, 0)
    {
      var i := 0;
      var value: byte := 0;
      ghost var o, was, p := payload.oft, output.data, payload.data;
      ghost var end := was + MaskedFrom(p, o, maskingKey, 0, payloadLength, 0);
      while i < payloadLength
        invariant 0 <= i <= payloadLength && payload.Valid() && |output.data| == |was| + i
        invariant (o + i <= |p| ==> payload.oft == o + i) && (|p| <= o + i ==> payload.oft == |p|)
        invariant output.data + MaskedFrom(p, o, maskingKey, i, payloadLength, value) == end
      {
        ghost var last := value;
        ghost var out := output.data;
        value := NextByte(value, i);
        output.Append([value]);
        NextMasked(out, p, o, maskingKey, i, payloadLength, last, value);
        i := i + 1;
      }
      NothingAfter(output.data);
    }

    /** The byte read, or the one before, masked. */
    method NextByte(last: byte, i: nat) returns (value: byte)
      requires payload.Valid()
      modifies payload`oft
      ensures payload.Valid()
      ensures var o := old(payload.oft);
              && value == (if o < |payload.data| then payload.data[o] else last) ^ maskingKey[i % 4]
              && payload.oft == if o < |payload.data| then o + 1 else o
    {
      value := last;
      var r := payload.ReadBytesX(1);
      if r.Got? {
        value := r.bytes[0];
      }
      value := value ^ maskingKey[i % 4];
    }

    /** The declared length and the payload's offset count, as they are; with the length of the
        payload, still unread if the frame is masked, this is one frame. */
    method PackDataframe(output: ByteBuffer)
      requires payload.Valid() && output != payload
      requires |output.data| + 14 + |payload.data| <= INT_MAX && |output.data| + 14 + payloadLength <= INT_MAX
      modifies output`data, payload`oft
      ensures output.data == old(output.data) + PackAs(Fields(), payloadLength, old(payload.oft))
      ensures payloadLength == |payload.data| && (mask == 1 ==> old(payload.oft) == 0)
              ==> output.data == old(output.data) + Pack(Fields())
    {
      ghost var f, o, n, was := Fields(), payload.oft, payloadLength, output.data;
      var onebyte := FlagByte();
      output.Append([onebyte]);
      PackLength(output);
      if mask == 1 {
        output.Append(maskingKey);
        PackMasked(output);
      } else {
        output.Append(payload.data);
      }
      ghost var l, m := LengthBytes(n, f.mask), MaskedFrom(f.payload, o, f.key, 0, n, 0);
      Assembled(was, [FirstByte(f)], l, if f.mask == 1 then f.key else f.payload, m);
      if n == |f.payload| && (f.mask == 1 ==> o == 0) {
        PackAsFrame(f, o);
      }
    }

    // ---------- the handshake ----------

    /** The first line that is not blank, or the number of lines; what is passed is trimmed in
        place. */
    method SkipBlanks(all: seq<seq<byte>>) returns (lines: seq<seq<byte>>, it: nat)
      ensures it == LeadingBlanks(all) && |lines| == |all|
      ensures it < |all| ==> lines[it] == Trim(all[it]) && lines[it + 1..] == all[it + 1..]
    {
      lines, it := all, 0;
      while it < |lines|
        invariant it <= |lines| == |all| && lines[it..] == all[it..]
        invariant LeadingBlanks(all) == it + LeadingBlanks(all[it..])
      {
        assert lines[it..][0] == all[it..][0] && all[it..][1..] == all[it + 1..];
        lines := lines[it := Trim(lines[it])];
        if lines[it] != [] {
          return;
        }
        it := it + 1;
      }
    }

    /** The loop over the header lines. */
    method FetchFields(lines: seq<seq<byte>>, start: nat)
      requires start <= |lines|
      modifies this`params
      ensures params == AddFields(old(params), lines[start..])
    {
      var it := start;
      while it < |lines|
        invariant start <= it <= |lines|
        invariant AddFields(params, lines[it..]) == AddFields(old(params), lines[start..])
      {
        assert lines[it..][0] == lines[it] && lines[it..][1..] == lines[it + 1..];
        var line := lines[it];
        it := it + 1;
        var pos := Find(line, [COLON], 0);
        if pos == -1 {
          continue;
        }
        var k, v := Trim(line[..pos]), Trim(line[pos + 1..]);
        if k == [] || v == [] {
          continue;
        }
        params := params[k := v];
      }
    }

    /** What a call of `fetch_hs_element` returns and leaves behind for a request, when the packet had
        the parameters `before`. */
    predicate Fetched(r: Request, before: Params, size: int, wild: bool)
      reads this
    {
      match r
      case Unfinished => size == -1 && !wild && params == before
      case AllBlank => wild
      case Parsed(n, a, b, c, ps) => size == n && !wild && verb == a && uri == b && version == c && params == ps
    }

    method FetchHsElement(msg: seq<byte>) returns (size: int, wild: bool)
      modifies this`verb, this`uri, this`version, this`params
      ensures Fetched(FetchOnto(old(params), msg), old(params), size, wild)
    {
      size, wild := -1, false;
      var endpos := Find(msg, TERMINATOR, 0);
      if endpos == -1 {
        return;
      }
      var all, count := SplitStr([], msg[..endpos], Delimiter(EOL));
      NothingBefore(Split(msg[..endpos], EOL));
      SplitByText(msg[..endpos], EOL);
      if count < 2 {
        return;
      }
      var lines, it := SkipBlanks(all);
      if it == |lines| {
        wild := true;
        return;
      }
      var tokens, n := SplitStr([], lines[it], Delimiter([SPACE]));
      NothingBefore(Split(lines[it], [SPACE]));
      SplitByText(lines[it], [SPACE]);
      if n < 3 {
        return;
      }
      verb, uri, version := Trim(tokens[0]), Trim(tokens[1]), Trim(tokens[2]);
      FetchFields(lines, it + 1);
      size := endpos + 4;
    }

    /** What a call of `recv_handshake` returns and leaves behind for a verdict, when the packet had
        the handshake length `before`. */
    predicate Judged(v: Verdict, before: nat, input: ByteBuffer, status: nat, wild: bool)
      reads this, input
    {
      match v
      case More => status == 0 && !wild && hsLength == before && input.oft == 0
      case Broken => wild
      case Refused => status != 0 && !wild && input.oft == 0
      case Accepted(n, ps) => status == 0 && !wild && hsLength == n && params == ps && input.oft == n
    }

    method RecvHandshake(input: ByteBuffer) returns (status: nat, wild: bool)
      requires input.Valid() && input.oft == 0
      modifies this`verb, this`uri, this`version, this`params, this`hsLength, input`oft
      ensures input.Valid()
      ensures Judged(JudgeOnto(old(params), input.data, MAX_SIZE), old(hsLength), input, status, wild)
      ensures status == 0 || status == if |input.data| > 1024000 then 1024000 else 10070
    {
      status, wild := 0, false;
      if |input.data| > MAX_SIZE {
        return MAX_SIZE, false;
      }
      var size;
      size, wild := FetchHsElement(input.data);
      if wild {
        return;
      }
      if size <= 0 {
        input.ResetOft();
        return;
      }
      if !Acceptable(params) {
        input.ResetOft();
        return INVALID_PARAMS, false;
      }
      hsLength := size;
      var ok := input.SkipX(hsLength);
    }

    method PackHandshakeRsp() returns (rsp: seq<byte>)
      ensures rsp == Response(params)
    {
      var rawKey := Get(params, "Sec-WebSocket-Key") + Ascii(MAGIC);
      var hash := Sha1.SHA1HashBytes(rawKey);
      var accept := AcceptText(hash);
      rsp := Ascii("HTTP/1.1 101 Switching Protocols") + EOL;
      rsp := rsp + Ascii("Connection: upgrade") + EOL;
      rsp := rsp + Ascii("Upgrade: websocket") + EOL;
      rsp := rsp + Ascii("Sec-WebSocket-Accept: ") + accept + EOL;
      if Get(params, "Sec-WebSocket-Protocol") != [] {
        rsp := rsp + Ascii("Sec-WebSocket-Protocol: chat") + EOL;
      }
      rsp := rsp + EOL;
    }

    /** The accept value as a string of C: up to the first NUL of its array. */
    method AcceptText(hash: seq<byte>) returns (accept: seq<byte>)
      requires |hash| == 20
      ensures accept == Base64.Encode(hash)
    {
      var key := new byte[128](_ => 0);
      ghost var was := key[..];
      var n := Base64.Base64encode(key, hash);
      ghost var text := Base64.Encode(hash);
      Base64.EncodeNoZero(hash);
      FindPast([], text, [0], was[n..]);
      assert [] + text + [0] + was[n..] == key[..];
      accept := key[..Find(key[..], [0], 0)];
    }
  }
}
