/** When the messages the code puts together are those of section 5.4 of RFC 6455. */
module Fragmentation {
  import opened Bytes
  import opened Frames
  import opened Connection
  import opened Echo

  predicate Control(opcode: byte) {
    opcode >= 8
  }

  /** The messages of section 5.4: a control frame stands alone, also between the fragments of
      another message, and a message has the opcode of its first frame.  While a message is `open`,
      its opcode is `op` and its payload so far `acc`. */
  function Standard(open: bool, op: byte, acc: seq<byte>, fs: seq<Outgoing>): seq<Message>
    decreases |fs|
  {
    if fs == [] then []
    else
      var f := fs[0];
      if Control(f.opcode) then [Message(f.opcode, f.payload)] + Standard(open, op, acc, fs[1..])
      else
        var first := if open then op else f.opcode;
        var m := acc + f.payload;
        if f.fin == 1 then [Message(first, m)] + Standard(false, 0, [], fs[1..])
        else Standard(true, first, m, fs[1..])
  }

  /** No reserved bit and no reserved opcode. */
  predicate PlainFrame(f: Outgoing) {
    f.rsv1 == 0 && f.rsv2 == 0 && f.rsv3 == 0 && KnownOpcode(f.opcode)
  }

  /** What the section demands of a sender: control frames are not fragmented, and the opcode 0
      stands for a continuation, exactly while a message is open. */
  predicate WellFormed(open: bool, fs: seq<Outgoing>)
    decreases |fs|
  {
    if fs == [] then true
    else
      var f := fs[0];
      && PlainFrame(f)
      && if Control(f.opcode) then f.fin == 1 && WellFormed(open, fs[1..])
         else (f.opcode == 0 <==> open) && WellFormed(f.fin != 1, fs[1..])
  }

  /** No message ends with a continuation frame, and nothing is pending before a control frame. */
  predicate Coincide(msg: seq<byte>, fs: seq<Outgoing>)
    decreases |fs|
  {
    if fs == [] then true
    else
      var f := fs[0];
      && (f.fin == 1 ==> f.opcode != 0)
      && (Control(f.opcode) ==> msg == [])
      && Coincide(if f.fin == 1 then [] else msg + f.payload, fs[1..])
  }

  lemma PlainBits(f: Outgoing)
    requires PlainFrame(f)
    ensures SevenBits(f) == f.opcode
  {
  }

  lemma SameHead<T>(x: T, a: seq<T>, y: T, b: seq<T>)
    ensures [x] + a == [y] + b <==> x == y && a == b
  {
    if [x] + a == [y] + b {
      assert ([x] + a)[0] == x && ([y] + b)[0] == y;
      assert ([x] + a)[1..] == a && ([y] + b)[1..] == b;
    }
  }

  lemma LongerDiffers(a: seq<byte>, b: seq<byte>)
    ensures a + b == b <==> a == []
  {
    if a == [] {
      assert a + b == b;
    } else {
      assert |a + b| > |b|;
    }
  }

  /** The code's messages are those of the standard exactly when they coincide frame by frame. */
  lemma {:induction false} MessagesStandard(open: bool, op: byte, msg: seq<byte>, fs: seq<Outgoing>)
    requires WellFormed(open, fs) && (open ==> op != 0) && (!open ==> msg == [])
    ensures Messages(msg, fs) == Standard(open, op, msg, fs) <==> Coincide(msg, fs)
    decreases |fs|
  {
    if fs == [] {
      assert Messages(msg, fs) == Standard(open, op, msg, fs);
    } else {
      var f, rest := fs[0], fs[1..];
      var m := msg + f.payload;
      PlainBits(f);
      if Control(f.opcode) {
        SameHead(Message(f.opcode, m), Messages([], rest), Message(f.opcode, f.payload), Standard(open, op, msg, rest));
        LongerDiffers(msg, f.payload);
        if msg == [] {
          MessagesStandard(open, op, [], rest);
        }
      } else if f.fin == 1 {
        var first := if open then op else f.opcode;
        SameHead(Message(f.opcode, m), Messages([], rest), Message(first, m), Standard(false, 0, [], rest));
        MessagesStandard(false, 0, [], rest);
      } else {
        MessagesStandard(true, if open then op else f.opcode, m, rest);
      }
    }
  }

  // ---------- the written log ----------

  lemma ReplyOpcode(opcode: byte, opcode': byte)
    requires KnownOpcode(opcode) && KnownOpcode(opcode')
    ensures FirstByte(ReplyFrame(opcode, [])) == FirstByte(ReplyFrame(opcode', [])) ==> opcode == opcode'
  {
  }

  lemma TailsEqual(h: seq<byte>, a: seq<byte>, h': seq<byte>, b: seq<byte>)
    requires h + a == h' + b && |h| == |h'|
    ensures a == b
  {
    assert (h + a)[|h|..] == a && (h' + b)[|h'|..] == b;
  }

  lemma SecondTold(s: nat, t: nat)
    requires s < 128 && t < 128 && (0 << 7) | ToByte(s) == (0 << 7) | ToByte(t)
    ensures s == t
  {
    PackedSecond(0, s);
    PackedSecond(0, t);
  }

  lemma ReplyHead(opcode: byte, data: seq<byte>)
    ensures var f := ReplyFrame(opcode, data);
            && Pack(f) == PackedHeader(f) + data && |PackedHeader(f)| == 2 + ExtendedBytes(LengthTypeFor(|data|))
            && Pack(f)[0] == FirstByte(ReplyFrame(opcode, []))
            && Pack(f)[1] == (0 << 7) | ToByte(LengthTypeFor(|data|))
  {
  }

  /** Different messages are written differently. */
  lemma ReplyTold(m: Message, n: Message)
    requires KnownOpcode(m.opcode) && KnownOpcode(n.opcode)
    ensures Reply(m.opcode, m.data) == Reply(n.opcode, n.data) <==> m == n
  {
    var f, g := ReplyFrame(m.opcode, m.data), ReplyFrame(n.opcode, n.data);
    if Pack(f) == Pack(g) {
      ReplyHead(m.opcode, m.data);
      ReplyHead(n.opcode, n.data);
      SecondTold(LengthTypeFor(|m.data|), LengthTypeFor(|n.data|));
      ReplyOpcode(m.opcode, n.opcode);
      TailsEqual(PackedHeader(f), m.data, PackedHeader(g), n.data);
    }
  }

  predicate AllKnown(ms: seq<Message>) {
    forall m :: m in ms ==> KnownOpcode(m.opcode)
  }

  lemma {:induction false} RepliesTold(ms: seq<Message>, ns: seq<Message>)
    requires AllKnown(ms) && AllKnown(ns)
    ensures Replies(ms) == Replies(ns) <==> ms == ns
    decreases |ms|
  {
    if ms == [] || ns == [] {
      assert ms != [] ==> ms[0] in ms;
      assert ns != [] ==> ns[0] in ns;
    } else {
      var m, n := ms[0], ns[0];
      assert m in ms && n in ns;
      ReplyTold(m, n);
      RepliesTold(ms[1..], ns[1..]);
      SameHead(Pack(ReplyFrame(m.opcode, m.data)), Replies(ms[1..]), Pack(ReplyFrame(n.opcode, n.data)), Replies(ns[1..]));
      assert ms == [m] + ms[1..] && ns == [n] + ns[1..];
    }
  }

  lemma {:induction false} MessagesKnown(open: bool, op: byte, msg: seq<byte>, fs: seq<Outgoing>)
    requires WellFormed(open, fs) && KnownOpcode(op)
    ensures AllKnown(Messages(msg, fs)) && AllKnown(Standard(open, op, msg, fs))
    decreases |fs|
  {
    if fs == [] {
      assert Messages(msg, fs) == [] && Standard(open, op, msg, fs) == [];
    } else {
      var f, rest := fs[0], fs[1..];
      var m := msg + f.payload;
      PlainBits(f);
      if Control(f.opcode) {
        MessagesKnown(open, op, [], rest);
        MessagesKnown(open, op, msg, rest);
      } else if f.fin == 1 {
        MessagesKnown(false, 0, [], rest);
      } else {
        MessagesKnown(true, if open then op else f.opcode, m, rest);
      }
    }
  }

  lemma SameFront<T>(a: seq<T>, b: seq<T>, c: seq<T>)
    ensures a + b == a + c <==> b == c
  {
    if a + b == a + c {
      assert (a + b)[|a|..] == b && (a + c)[|a|..] == c;
    }
  }

  /** What an open connection, also one in the middle of a message, writes for the frames of a
      well-behaved client is what section 5.4 calls for exactly when the messages coincide. */
  lemma EchoStandard(c: Conn, open: bool, op: byte, fs: seq<Outgoing>, e: Env)
    requires c.open && AllReadable(fs) && c.buf == Wire(fs) && WellFormed(open, fs)
    requires if open then op != 0 && KnownOpcode(op) else c.msg == []
    ensures Drain(c, e).log == c.log + Replies(Standard(open, op, c.msg, fs)) <==> Coincide(c.msg, fs)
  {
    var first := if open then op else 0;
    FramesTaken(c, fs, e);
    ClosedOpcode(open, op, first, c.msg, fs);
    MessagesStandard(open, first, c.msg, fs);
    MessagesKnown(open, first, c.msg, fs);
    RepliesTold(Messages(c.msg, fs), Standard(open, first, c.msg, fs));
    SameFront(c.log, Replies(Messages(c.msg, fs)), Replies(Standard(open, first, c.msg, fs)));
  }

  /** Without an open message its opcode does not matter. */
  lemma {:induction false} ClosedOpcode(open: bool, op: byte, op': byte, acc: seq<byte>, fs: seq<Outgoing>)
    requires open ==> op == op'
    ensures Standard(open, op, acc, fs) == Standard(open, op', acc, fs)
    decreases |fs|
  {
    if fs == [] {
    } else if Control(fs[0].opcode) {
      ClosedOpcode(open, op, op', acc, fs[1..]);
    } else {
    }
  }

  // ---------- inputs on which they differ ----------

  function ClientFrame(fin: byte, opcode: byte, key: Key, payload: seq<byte>): Outgoing {
    Outgoing(fin, 0, 0, 0, opcode, 1, key, payload)
  }

  lemma OneStandard(open: bool, op: byte, acc: seq<byte>, f: Outgoing)
    requires f.fin == 1
    ensures Standard(open, op, acc, [f]) ==
            if Control(f.opcode) then [Message(f.opcode, f.payload)]
            else [Message(if open then op else f.opcode, acc + f.payload)]
    ensures WellFormed(open, [f]) <==> PlainFrame(f) && (Control(f.opcode) || (f.opcode == 0 <==> open))
    ensures Coincide(acc, [f]) <==> f.opcode != 0 && (Control(f.opcode) ==> acc == [])
  {
    assert [f][1..] == [];
  }

  /** The first of two frames opens a message. */
  lemma OpeningFrame(f: Outgoing, g: Outgoing)
    requires f.fin == 0 && f.opcode == 1
    ensures Messages([], [f, g]) == Messages(f.payload, [g])
    ensures Standard(false, 0, [], [f, g]) == Standard(true, 1, f.payload, [g])
    ensures WellFormed(false, [f, g]) <==> PlainFrame(f) && WellFormed(true, [g])
    ensures Coincide([], [f, g]) <==> Coincide(f.payload, [g])
  {
    assert [f, g][1..] == [g] && [] + f.payload == f.payload;
  }

  /** A text in two fragments is a well-formed sequence; it is answered as one message under the
      opcode 0, not as a text. */
  lemma FragmentedText(key: Key, a: seq<byte>, b: seq<byte>)
    ensures var fs := [ClientFrame(0, 1, key, a), ClientFrame(1, 0, key, b)];
            && WellFormed(false, fs) && !Coincide([], fs)
            && Messages([], fs) == [Message(0, a + b)] && Standard(false, 0, [], fs) == [Message(1, a + b)]
  {
    var f, g := ClientFrame(0, 1, key, a), ClientFrame(1, 0, key, b);
    OpeningFrame(f, g);
    OneFrameMessages(a, g);
    OneStandard(true, 1, a, g);
    PlainBits(g);
  }

  lemma ClientReadable(fin: byte, opcode: byte, key: Key, payload: seq<byte>)
    requires fin <= 1 && opcode <= 15 && |payload| <= 65535
    ensures Readable(ClientFrame(fin, opcode, key, payload))
  {
    assert Power256(2) == 65536 && Power256(2) <= Power256(8);
  }

  lemma OneReply(m: Message)
    requires KnownOpcode(m.opcode)
    ensures Replies([m]) == [Pack(ReplyFrame(m.opcode, m.data))]
  {
    assert [m][1..] == [];
  }

  /** What is written for it is therefore not what the section calls for. */
  lemma FragmentedTextEcho(c: Conn, key: Key, a: seq<byte>, b: seq<byte>, fs: seq<Outgoing>, e: Env)
    requires c.open && c.msg == [] && |a| <= 65535 && |b| <= 65535 && c.buf == Wire(fs)
    requires fs == [ClientFrame(0, 1, key, a), ClientFrame(1, 0, key, b)]
    ensures Drain(c, e).log == c.log + [Pack(ReplyFrame(0, a + b))]
    ensures Pack(ReplyFrame(0, a + b)) != Pack(ReplyFrame(1, a + b))
  {
    ClientReadable(0, 1, key, a);
    ClientReadable(1, 0, key, b);
    FragmentedText(key, a, b);
    FramesTaken(c, fs, e);
    OneReply(Message(0, a + b));
    ReplyTold(Message(0, a + b), Message(1, a + b));
  }

  /** A ping between the fragments of a text is answered with the fragment in front of its own
      payload. */
  lemma InterleavedPing(key: Key, a: seq<byte>, b: seq<byte>)
    requires a != []
    ensures var fs := [ClientFrame(0, 1, key, a), ClientFrame(1, 9, key, b)];
            && WellFormed(false, fs) && !Coincide([], fs)
            && Messages([], fs) == [Message(9, a + b)] && Standard(false, 0, [], fs) == [Message(9, b)]
  {
    var f, g := ClientFrame(0, 1, key, a), ClientFrame(1, 9, key, b);
    OpeningFrame(f, g);
    OneFrameMessages(a, g);
    OneStandard(true, 1, a, g);
    PlainBits(g);
  }
}
