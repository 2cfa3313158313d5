/** Worked examples of the standards, byte by byte: section 10 of RFC 4648 and sections 1.3 and 5.7
    of RFC 6455. */
module KnownAnswers {
  import opened Bytes
  import opened Text
  import opened Frames
  import Base64
  import Sha1Standard
  import Sha1Sample
  import Handshake
  import Connection

  // ---------- base64 ----------

  /** Behind whole groups, a text is encoded by itself. */
  lemma EncodesOn(s: seq<byte>, text: string, t: seq<byte>, more: string)
    requires Base64.Encode(s) == Ascii(text) && |s| % 3 == 0 && Base64.Encode(t) == Ascii(more)
    ensures Base64.Encode(s + t) == Ascii(text + more)
  {
    Base64.EncodeAppend(s, t);
    AsciiJoin(text, more);
  }

  lemma Chars(t: seq<byte>, four: string)
    requires 1 <= |t| <= 3 && |four| == 4
    requires var b := Base64.CodeChars(t);
             && Value(b[0]) == four[0] as nat && Value(b[1]) == four[1] as nat
             && Value(b[2]) == four[2] as nat && Value(b[3]) == four[3] as nat
    ensures Base64.Encode(t) == Ascii(four)
  {
    Base64.CodeEncodes(t);
    Sha1Sample.FourCharacters(four, Base64.CodeChars(t));
  }

  /** The vectors f, fo, foo, foob, fooba and foobar. */
  lemma Vectors()
    ensures Base64.Encode([]) == []
    ensures Base64.Encode([0x66]) == Ascii("Zg==")
    ensures Base64.Encode([0x66, 0x6f]) == Ascii("Zm8=")
    ensures Base64.Encode([0x66, 0x6f, 0x6f]) == Ascii("Zm9v")
  {
    Chars([0x66], "Zg==");
    Chars([0x66, 0x6f], "Zm8=");
    Chars([0x66, 0x6f, 0x6f], "Zm9v");
  }

  lemma LongVectors()
    ensures Base64.Encode([0x66, 0x6f, 0x6f] + [0x62]) == Ascii("Zm9v" + "Yg==")
    ensures Base64.Encode([0x66, 0x6f, 0x6f] + [0x62, 0x61]) == Ascii("Zm9v" + "YmE=")
    ensures Base64.Encode([0x66, 0x6f, 0x6f] + [0x62, 0x61, 0x72]) == Ascii("Zm9v" + "YmFy")
  {
    Chars([0x66, 0x6f, 0x6f], "Zm9v");
    Chars([0x62], "Yg==");
    Chars([0x62, 0x61], "YmE=");
    Chars([0x62, 0x61, 0x72], "YmFy");
    EncodesOn([0x66, 0x6f, 0x6f], "Zm9v", [0x62], "Yg==");
    EncodesOn([0x66, 0x6f, 0x6f], "Zm9v", [0x62, 0x61], "YmE=");
    EncodesOn([0x66, 0x6f, 0x6f], "Zm9v", [0x62, 0x61, 0x72], "YmFy");
  }

  // ---------- the accept value ----------

  lemma DigestEncoded(a: seq<byte>, b: seq<byte>, c: seq<byte>, d: seq<byte>, e: seq<byte>, f: seq<byte>, g: seq<byte>)
    requires |a| == |b| == |c| == |d| == |e| == |f| == 3
    requires Base64.Encode(a) == Ascii("s3pP") && Base64.Encode(b) == Ascii("LMBi")
    requires Base64.Encode(c) == Ascii("TxaQ") && Base64.Encode(d) == Ascii("9kYG")
    requires Base64.Encode(e) == Ascii("zzhZ") && Base64.Encode(f) == Ascii("RbK+")
    requires Base64.Encode(g) == Ascii("xOo=")
    ensures Base64.Encode(a + b + c + d + e + f + g)
            == Ascii("s3pP" + "LMBi" + "TxaQ" + "9kYG" + "zzhZ" + "RbK+" + "xOo=")
  {
    EncodesOn(a, "s3pP", b, "LMBi");
    EncodesOn(a + b, "s3pP" + "LMBi", c, "TxaQ");
    EncodesOn(a + b + c, "s3pP" + "LMBi" + "TxaQ", d, "9kYG");
    EncodesOn(a + b + c + d, "s3pP" + "LMBi" + "TxaQ" + "9kYG", e, "zzhZ");
    EncodesOn(a + b + c + d + e, "s3pP" + "LMBi" + "TxaQ" + "9kYG" + "zzhZ", f, "RbK+");
    EncodesOn(a + b + c + d + e + f, "s3pP" + "LMBi" + "TxaQ" + "9kYG" + "zzhZ" + "RbK+", g, "xOo=");
  }

  lemma DigestChars()
    ensures Base64.Encode([0xb3, 0x7a, 0x4f]) == Ascii("s3pP") && Base64.Encode([0x2c, 0xc0, 0x62]) == Ascii("LMBi")
    ensures Base64.Encode([0x4f, 0x16, 0x90]) == Ascii("TxaQ") && Base64.Encode([0xf6, 0x46, 0x06]) == Ascii("9kYG")
    ensures Base64.Encode([0xcf, 0x38, 0x59]) == Ascii("zzhZ") && Base64.Encode([0x45, 0xb2, 0xbe]) == Ascii("RbK+")
    ensures Base64.Encode([0xc4, 0xea]) == Ascii("xOo=")
  {
    Chars([0xb3, 0x7a, 0x4f], "s3pP");
    Chars([0x2c, 0xc0, 0x62], "LMBi");
    Chars([0x4f, 0x16, 0x90], "TxaQ");
    Chars([0xf6, 0x46, 0x06], "9kYG");
    Chars([0xcf, 0x38, 0x59], "zzhZ");
    Chars([0x45, 0xb2, 0xbe], "RbK+");
    Chars([0xc4, 0xea], "xOo=");
  }

  lemma SampleText()
    ensures "s3pP" + "LMBi" + "TxaQ" + "9kYG" + "zzhZ" + "RbK+" + "xOo=" == "s3pPLMBiTxaQ9kYGzzhZRbK+xOo="
  {
  }

  lemma SampleBytes()
    ensures Sha1Standard.Hash(Sha1Sample.Sample()) ==
            [0xb3, 0x7a, 0x4f] + [0x2c, 0xc0, 0x62] + [0x4f, 0x16, 0x90] + [0xf6, 0x46, 0x06]
            + [0xcf, 0x38, 0x59] + [0x45, 0xb2, 0xbe] + [0xc4, 0xea]
  {
    Sha1Sample.SampleDigest();
  }

  /** The sample key of section 1.3 of RFC 6455 is answered with the accept value given there. */
  lemma SampleAccepted()
    ensures Handshake.AcceptValue(Ascii("dGhlIHNhbXBsZSBub25jZQ==")) == Ascii("s3pPLMBiTxaQ9kYGzzhZRbK+xOo=")
  {
    Handshake.AcceptValueStandard(Ascii("dGhlIHNhbXBsZSBub25jZQ=="));
    SampleBytes();
    DigestChars();
    DigestEncoded([0xb3, 0x7a, 0x4f], [0x2c, 0xc0, 0x62], [0x4f, 0x16, 0x90], [0xf6, 0x46, 0x06],
                  [0xcf, 0x38, 0x59], [0x45, 0xb2, 0xbe], [0xc4, 0xea]);
    SampleText();
  }

  // ---------- frames ----------

  const HELLO: seq<byte> := [0x48, 0x65, 0x6c, 0x6c, 0x6f]
  const HELLO_KEY: Key := [0x37, 0xfa, 0x21, 0x3d]

  lemma HelloMasked()
    ensures Unmask([0x7f, 0x9f, 0x4d, 0x51, 0x58], HELLO_KEY) == HELLO
  {
  }

  /** A masked text "Hello" in one frame. */
  lemma MaskedHello(junk: Key)
    ensures var b := [0x81, 0x85, 0x37, 0xfa, 0x21, 0x3d, 0x7f, 0x9f, 0x4d, 0x51, 0x58];
            Reference(b) == Decode(b, junk) == Took(11, 1, 1, HELLO)
  {
    var b: seq<byte> := [0x81, 0x85, 0x37, 0xfa, 0x21, 0x3d, 0x7f, 0x9f, 0x4d, 0x51, 0x58];
    HelloMasked();
    ByteNumbers(0x85);
    assert b[2..6] == HELLO_KEY && b[6..11] == [0x7f, 0x9f, 0x4d, 0x51, 0x58];
    DecodeAgrees(b, junk);
  }

  /** The same text unmasked, as it is sent back. */
  lemma UnmaskedHello()
    ensures Reference([0x81, 0x05, 0x48, 0x65, 0x6c, 0x6c, 0x6f]) == Took(7, 1, 1, HELLO)
    ensures Pack(Connection.ReplyFrame(1, HELLO)) == [0x81, 0x05, 0x48, 0x65, 0x6c, 0x6c, 0x6f]
  {
    var b: seq<byte> := [0x81, 0x05, 0x48, 0x65, 0x6c, 0x6c, 0x6f];
    ByteNumbers(0x05);
    assert b[2..7] == HELLO;
    ToByteIsNumber(5, 0x05);
  }

  lemma NetworkOrder(a: byte, b: byte)
    ensures BigEndian([a, b]) == 256 * a as nat + b as nat
  {
    assert [a, b][..1] == [a] && [a][..0] == [];
    assert BigEndian([a]) == Value(a) && BigEndian([a, b]) == BigEndian([a]) * 256 + Value(b);
    ValueIsNumber(a);
    ValueIsNumber(b);
  }

  /** 256 bytes in one unmasked binary frame. */
  lemma Binary256(data: seq<byte>)
    requires |data| == 256
    ensures Reference([0x82, 0x7e, 0x01, 0x00] + data) == Took(260, 1, 2, data)
    ensures Pack(Connection.ReplyFrame(2, data)) == [0x82, 0x7e, 0x01, 0x00] + data
  {
    var b: seq<byte> := [0x82, 0x7e, 0x01, 0x00] + data;
    ByteNumbers(0x7e);
    NetworkOrder(0x01, 0x00);
    assert b[2..4] == [0x01, 0x00] && b[4..260] == data;
    ToByteIsNumber(126, 0x7e);
    ToByteIsNumber(256, 0x00);
    ToByteIsNumber(1, 0x01);
    assert Digits(256, 2) == Digits(1, 1) + [ToByte(256)] && Digits(1, 1) == Digits(0, 0) + [ToByte(1)];
  }

  lemma Length64K()
    ensures BigEndian([0x00, 0x00, 0x00, 0x00, 0x00, 0x01, 0x00, 0x00]) == 65536
  {
    var z: seq<byte> := [0x00, 0x00, 0x00, 0x00, 0x00];
    assert z == seq(5, _ => 0);
    BigEndianZeros(5);
    ValueCounts(0);
    assert BigEndian(z + [0x01]) == 1 by {
      assert (z + [0x01])[..5] == z;
    }
    assert (z + [0x01] + [0x00])[..6] == z + [0x01];
    assert BigEndian(z + [0x01] + [0x00]) == 256;
    assert (z + [0x01] + [0x00] + [0x00])[..7] == z + [0x01] + [0x00];
    assert z + [0x01] + [0x00] + [0x00] == [0x00, 0x00, 0x00, 0x00, 0x00, 0x01, 0x00, 0x00];
  }

  /** 65536 bytes in one unmasked binary frame: the code drops the length and takes the header for
      an empty frame. */
  lemma Binary64K(data: seq<byte>, junk: Key)
    requires |data| == 65536
    ensures Reference(HEADER_64K + data) == Took(65546, 1, 2, data)
    ensures Decode(HEADER_64K + data, junk) == Took(10, 1, 2, [])
  {
    var b := HEADER_64K + data;
    assert b[0] == 0x82 && b[1] == 0x7f;
    ByteNumbers(0x7f);
    Length64K();
    assert b[2..10] == [0x00, 0x00, 0x00, 0x00, 0x00, 0x01, 0x00, 0x00];
    assert b[10..65546] == data;
    WholeHeaderIs(b, junk);
  }

  const HEADER_64K: seq<byte> := [0x82, 0x7f, 0x00, 0x00, 0x00, 0x00, 0x00, 0x01, 0x00, 0x00]
}
