/** The endpoint as an object (`WebSocketEndpoint` in `src/ws_endpoint.cpp`): its methods carry out
    the steps of `Connection`. */
module Endpoints {
  import opened Bytes
  import opened Frames
  import opened Handshake
  import opened Connection
  import opened ByteBuffers
  import opened Packets

  /** The key of an unmasked frame is not written. */
  lemma ReplyPacked(f: Outgoing, opcode: byte, message: seq<byte>)
    requires f == ReplyFrame(opcode, message).(key := f.key, payload := [] + message)
    ensures [] + Pack(f) == Pack(ReplyFrame(opcode, message)) != []
  {
    assert [] + message == message;
  }

  lemma VerdictSize(buf: seq<byte>)
    ensures var v := Judge(buf, MAX_SIZE);
            v.Accepted? ==> 0 < v.size <= |buf|
  {
    FetchBounds(buf);
  }

  lemma TookSmall(buf: seq<byte>, junk: Key)
    ensures var d := Decode(buf, junk);
            d.Took? ==> |d.payload| <= d.size <= |buf|
  {
  }

  /** The message a step puts together, and the frame it is answered with, can be counted by an
      `int`. */
  predicate StepCounts(c: Conn, e: Env) {
    var d := Decode(c.buf, e.junk);
    c.open && d.Took? ==> |c.msg| + |d.payload| + 14 <= INT_MAX
  }

  /** So can every buffer of the run from `c`. */
  predicate RunCounts(c: Conn, e: Env)
    decreases |c.buf|
  {
    && |c.buf| <= INT_MAX && StepCounts(c, e)
    && match Parse(c, e)
       case Stay => true
       case Refuse => true
       case Crash => true
       case Go(next, _) => RunCounts(next, e)
  }

  /** It is enough that the unread bytes and the message together can be counted. */
  lemma {:induction false} SmallRunCounts(c: Conn, e: Env)
    requires |c.buf| + |c.msg| + 14 <= INT_MAX
    ensures RunCounts(c, e)
    decreases |c.buf|
  {
    TookSmall(c.buf, e.junk);
    var s := Parse(c, e);
    if !s.Go? {
    } else {
      SmallRunCounts(s.next, e);
    }
  }

  class WebSocketEndpoint {
    var handshakeCompleted: bool
    const fromwire: ByteBuffer
    const messageData: ByteBuffer
    /** Everything given to the write callback. */
    var log: seq<seq<byte>>
    /** What an uninitialised masking key holds. */
    const junk: Key
    ghost var taken: seq<seq<byte>>
    ghost var dead: bool

    ghost function Env(): Env
      reads this
    {
      Connection.Env(junk, MAX_SIZE)
    }

    /** The endpoint as a state of the connection. */
    ghost function State(): Conn
      reads this, fromwire, messageData
    {
      Conn(handshakeCompleted, fromwire.data, messageData.data, log, taken, dead)
    }

    predicate Valid()
      reads this, fromwire, messageData
    {
      fromwire != messageData && |fromwire.data| <= INT_MAX && messageData.oft == 0
    }

    /** Between two calls the read offset is back at the start. */
    predicate Ready()
      reads this, fromwire, messageData
    {
      Valid() && fromwire.oft == 0
    }

    constructor (junk: Key)
      ensures Ready() && State() == START && fresh(fromwire) && fresh(messageData) && this.junk == junk
    {
      handshakeCompleted := false;
      fromwire := new ByteBuffer();
      messageData := new ByteBuffer();
      log, taken, dead := [], [], false;
      this.junk := junk;
    }

    method ToWire(bytes: seq<byte>)
      modifies this`log
      ensures log == if bytes == [] then old(log) else old(log) + [bytes]
    {
      if bytes == [] {
        return;
      }
      log := log + [bytes];
    }

    method UserDefinedProcess(opcode: byte, message: ByteBuffer)
      requires |message.data| + 14 <= INT_MAX
      modifies this`log
      ensures log == old(log) + [Pack(ReplyFrame(opcode, message.data))]
    {
      var packet := new WebSocketPacket(junk);
      packet.fin := 1;
      packet.opcode := opcode;
      packet.SetPayload(message.data);
      var output := new ByteBuffer();
      ReplyPacked(packet.Fields(), opcode, message.data);
      packet.PackDataframe(output);
      ToWire(output.data);
    }

    method ProcessMessageData(opcode: byte, message: ByteBuffer)
      requires |message.data| + 14 <= INT_MAX
      modifies this`log
      ensures log == old(log) + Reply(opcode, message.data)
    {
      match opcode
      case 0 => UserDefinedProcess(opcode, message);
      case 1 => UserDefinedProcess(opcode, message);
      case 2 => UserDefinedProcess(opcode, message);
      case 8 => UserDefinedProcess(opcode, message);
      case 9 => UserDefinedProcess(opcode, message);
      case 10 => UserDefinedProcess(opcode, message);
      case _ =>
    }

    // ---------- parse_packet ----------

    /** What `parse_packet` returns and leaves behind for a step from `c`. */
    ghost predicate Stepped(c: Conn, s: Step, n: int, threw: bool)
      reads this, fromwire, messageData
    {
      match s
      case Stay => n == 0 && !threw && State() == c
      case Refuse => n == -1 && !threw && State() == c && fromwire.oft == 0
      case Crash => threw && State() == c.(dead := true)
      case Go(next, size) =>
        n == size && !threw && State() == next.(buf := c.buf, taken := c.taken)
    }

    method ParseHandshake() returns (n: int, threw: bool)
      requires Ready() && !handshakeCompleted && !dead
      modifies this, fromwire`oft
      ensures Valid() && Stepped(old(State()), Parse(old(State()), Env()), n, threw)
    {
      ghost var c := State();
      n, threw := 0, false;
      var packet := new WebSocketPacket(junk);
      var status;
      status, threw := packet.RecvHandshake(fromwire);
      VerdictSize(fromwire.data);
      if threw {
        dead := true;
        return;
      }
      if status != 0 {
        return -1, false;
      }
      if packet.hsLength == 0 {
        return;
      }
      AnswerHandshake(packet);
      n := packet.hsLength;
    }

    /** The response is written and the handshake done. */
    method AnswerHandshake(packet: WebSocketPacket)
      modifies `log, `handshakeCompleted
      ensures handshakeCompleted && log == old(log) + [Response(packet.params)]
    {
      var rsp := packet.PackHandshakeRsp();
      ResponseFirstByte(packet.params);
      ToWire(rsp);
      handshakeCompleted := true;
    }

    /** A frame taken: its payload joins the message, which is answered and emptied on FIN. */
    method TakeFrame(fin: byte, opcode: byte, payload: seq<byte>)
      requires Valid() && |messageData.data| + |payload| + 14 <= INT_MAX
      modifies this`log, messageData
      ensures messageData.oft == 0
      ensures var msg := old(messageData.data) + payload;
              && log == (if fin == 1 then old(log) + Reply(opcode, msg) else old(log))
              && messageData.data == if fin == 1 then [] else msg
    {
      messageData.Append(payload);
      if fin == 1 {
        ProcessMessageData(opcode, messageData);
        messageData.Erase(|messageData.data|);
        messageData.ResetOft();
      }
    }

    method ParseFrame() returns (n: int, threw: bool)
      requires Ready() && handshakeCompleted && !dead && StepCounts(State(), Env())
      modifies this, fromwire`oft, messageData
      ensures messageData.oft == 0 && Stepped(old(State()), Parse(old(State()), Env()), n, threw)
    {
      ghost var d := Decode(fromwire.data, junk);
      n, threw := 0, false;
      var packet := new WebSocketPacket(junk);
      var ndf;
      ndf, threw := packet.RecvDataframe(fromwire);
      if threw {
        dead := true;
        return;
      }
      if ndf == 0 {
        return;
      }
      TookSmall(fromwire.data, junk);
      NothingBefore(d.payload);
      TakeFrame(packet.fin, packet.opcode, packet.payload.data);
      n := ndf;
    }

    method ParsePacket() returns (n: int, threw: bool)
      requires Ready() && !dead && StepCounts(State(), Env())
      modifies this, fromwire`oft, messageData
      ensures messageData.oft == 0 && Stepped(old(State()), Parse(old(State()), Env()), n, threw)
    {
      if !handshakeCompleted {
        n, threw := ParseHandshake();
      } else {
        n, threw := ParseFrame();
      }
    }

    // ---------- from_wire ----------

    /** One round of the loop: the packet parsed is removed from the buffer. */
    method Round() returns (n: int, threw: bool)
      requires Ready() && !dead && StepCounts(State(), Env())
      modifies this, fromwire, messageData
      ensures Valid() && (!dead ==> Ready())
      ensures match Parse(old(State()), Env())
              case Stay => n == 0 && !threw && State() == old(State())
              case Refuse => n == -1 && !threw && State() == old(State())
              case Crash => threw && State() == old(State()).(dead := true)
              case Go(next, size) => n == size && !threw && State() == next
    {
      n, threw := ParsePacket();
      if threw || n < 0 {
        return;
      }
      if n > 0 {
        taken := taken + [fromwire.data[..n]];
        fromwire.Erase(n);
      }
      fromwire.ResetOft();
    }

    method FromWire(readbuf: seq<byte>) returns (r: Answer)
      requires Ready() && !dead && RunCounts(Plus(State(), readbuf), Env())
      modifies this, fromwire, messageData
      ensures (!dead ==> Ready()) && State() == Feed(old(State()), readbuf, Env())
      ensures r == Result(Plus(old(State()), readbuf), Env())
    {
      fromwire.Append(readbuf);
      ghost var c := State();
      while true
        invariant Ready() && !dead && RunCounts(State(), Env())
        invariant Drain(State(), Env()) == Drain(c, Env()) && Result(State(), Env()) == Result(c, Env())
        decreases |fromwire.data|
      {
        var n, threw := Round();
        if threw {
          return Threw;
        }
        if n < 0 {
          return Returned(-1);
        }
        if n == 0 {
          break;
        }
        if fromwire.data == [] {
          return Returned(n);
        }
      }
      r := Returned(0);
    }
  }
}
