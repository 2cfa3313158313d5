/** A connection as a state machine over the chunks handed to `from_wire`
    (`src/ws_endpoint.cpp`), and what holds over whole runs. */
module Connection {
  import opened Bytes
  import opened Frames
  import opened Handshake

  /** What the code leaves open or fixes once: the bytes of an uninitialised masking key, and the
      largest buffer looked at during the handshake. */
  datatype Env = Env(junk: Key, limit: nat)

  /** The endpoint between two calls: handshake done or not, the unread bytes, the message being
      put together, all that was written, all packets taken so far (the request, then frames),
      and whether an undefined access has ended the run. */
  datatype Conn = Conn(open: bool, buf: seq<byte>, msg: seq<byte>, log: seq<seq<byte>>,
                       taken: seq<seq<byte>>, dead: bool)

  const START := Conn(false, [], [], [], [], false)

  datatype Step = Stay | Refuse | Crash | Go(next: Conn, size: nat)

  predicate KnownOpcode(opcode: byte) {
    opcode == 0 || opcode == 1 || opcode == 2 || opcode == 8 || opcode == 9 || opcode == 10
  }

  /** A frame with a reserved bit set has no known opcode. */
  lemma ReservedUnknown(b: byte)
    requires (b & 0x70) != 0
    ensures !KnownOpcode(b & 0x7F)
  {
  }

  /** The frame `user_defined_process` packs for a message. */
  function ReplyFrame(opcode: byte, msg: seq<byte>): Outgoing {
    Outgoing(1, 0, 0, 0, opcode, 0, [0, 0, 0, 0], msg)
  }

  /** What `process_message_data` writes. */
  function Reply(opcode: byte, msg: seq<byte>): seq<seq<byte>> {
    if KnownOpcode(opcode) then [Pack(ReplyFrame(opcode, msg))] else []
  }

  function OnVerdict(c: Conn, v: Verdict): Step
    requires v.Accepted? ==> v.size <= |c.buf|
  {
    match v
    case More => Stay
    case Broken => Crash
    case Refused => Refuse
    case Accepted(n, params) =>
      Go(c.(open := true, buf := c.buf[n..], log := c.log + [Response(params)], taken := c.taken + [c.buf[..n]]), n)
  }

  function OnDecision(c: Conn, d: Decision): Step
    requires d.Took? ==> d.size <= |c.buf|
  {
    match d
    case Wait => Stay
    case Thrown => Crash
    case Took(n, fin, opcode, payload) =>
      var msg := c.msg + payload;
      var rest := c.(buf := c.buf[n..], taken := c.taken + [c.buf[..n]]);
      Go(if fin == 1 then rest.(msg := [], log := c.log + Reply(opcode, msg)) else rest.(msg := msg), n)
  }

  /** `parse_packet`. */
  function Parse(c: Conn, e: Env): (s: Step)
    ensures s.Go? ==> 0 < s.size <= |c.buf| && s.next.open && s.next.dead == c.dead
    ensures s.Go? ==> s.next.taken == c.taken + [c.buf[..s.size]] && s.next.buf == c.buf[s.size..]
  {
    if !c.open then FetchBounds(c.buf); OnVerdict(c, Judge(c.buf, e.limit)) else OnDecision(c, Decode(c.buf, e.junk))
  }

  /** The loop of `from_wire`. */
  function Drain(c: Conn, e: Env): Conn
    decreases |c.buf|
  {
    match Parse(c, e)
    case Stay => c
    case Refuse => c
    case Crash => c.(dead := true)
    case Go(next, _) => Drain(next, e)
  }

  function Plus(c: Conn, chunk: seq<byte>): Conn {
    c.(buf := c.buf + chunk)
  }

  /** The state after one call of `from_wire`. */
  function Feed(c: Conn, chunk: seq<byte>, e: Env): Conn {
    if c.dead then c else Drain(Plus(c, chunk), e)
  }

  /** The state after a run of calls. */
  function FeedAll(c: Conn, chunks: seq<seq<byte>>, e: Env): Conn {
    if chunks == [] then c else Feed(FeedAll(c, chunks[..|chunks| - 1], e), chunks[|chunks| - 1], e)
  }

  datatype Answer = Returned(code: int) | Threw

  /** What the loop of `from_wire` returns. */
  function Result(c: Conn, e: Env): Answer
    decreases |c.buf|
  {
    match Parse(c, e)
    case Stay => Returned(0)
    case Refuse => Returned(-1)
    case Crash => Threw
    case Go(next, n) => if next.buf == [] then Returned(n) else Result(next, e)
  }

  // ---------- conservation ----------

  /** All bytes received: those taken, in order, and those still unread. */
  function Received(c: Conn): seq<byte> {
    Flatten(c.taken) + c.buf
  }

  lemma TakeKeeps(taken: seq<seq<byte>>, buf: seq<byte>, n: nat)
    requires n <= |buf|
    ensures Flatten(taken + [buf[..n]]) + buf[n..] == Flatten(taken) + buf
  {
    FlattenAppend(taken, buf[..n]);
    var f := Flatten(taken);
    assert f + buf[..n] + buf[n..] == f + buf;
  }

  lemma {:induction false} DrainConserves(c: Conn, e: Env)
    ensures Received(Drain(c, e)) == Received(c)
    decreases |c.buf|
  {
    var s := Parse(c, e);
    if !s.Go? {
    } else {
      DrainConserves(s.next, e);
      TakeKeeps(c.taken, c.buf, s.size);
    }
  }

  lemma FeedReceives(c: Conn, chunk: seq<byte>, e: Env)
    requires !c.dead
    ensures Received(Feed(c, chunk, e)) == Received(c) + chunk
  {
    DrainConserves(Plus(c, chunk), e);
    Associates(Flatten(c.taken), c.buf, chunk);
  }

  /** No byte is lost, duplicated or moved, over any run that no undefined access has ended. */
  lemma {:induction false} Conservation(c: Conn, chunks: seq<seq<byte>>, e: Env)
    requires chunks != [] && !FeedAll(c, chunks[..|chunks| - 1], e).dead
    ensures Received(FeedAll(c, chunks, e)) == Received(c) + Flatten(chunks)
    decreases |chunks|
  {
    var front, last := chunks[..|chunks| - 1], chunks[|chunks| - 1];
    FeedReceives(FeedAll(c, front, e), last, e);
    if front == [] {
      assert Flatten(chunks) == last;
    } else {
      Conservation(c, front, e);
      Associates(Received(c), Flatten(front), last);
    }
  }

  /** Packets are only ever added. */
  lemma {:induction false} DrainTakes(c: Conn, e: Env)
    ensures c.taken <= Drain(c, e).taken
    ensures Parse(c, e).Go? ==> Parse(c, e).next.taken <= Drain(c, e).taken
    decreases |c.buf|
  {
    var s := Parse(c, e);
    if !s.Go? {
    } else {
      DrainTakes(s.next, e);
    }
  }

  // ---------- handshake safety ----------

  /** An entry written for a message. */
  ghost predicate IsReply(entry: seq<byte>) {
    exists opcode: byte, msg: seq<byte> :: KnownOpcode(opcode) && entry == Pack(ReplyFrame(opcode, msg))
  }

  ghost predicate RepliesFrom(log: seq<seq<byte>>, from: nat) {
    forall i :: from <= i < |log| ==> IsReply(log[i])
  }

  ghost predicate Opened(c: Conn, e: Env) {
    && c.taken != [] && c.log != []
    && var v := Judge(c.taken[0], e.limit);
    && v.Accepted? && v.size == |c.taken[0]| && c.log[0] == Response(v.params)
    && RepliesFrom(c.log, 1)
  }

  /** Before acceptance nothing is written and no packet is taken; after it, the first packet is an
      accepted request, its response is the first entry, and every other entry is a reply. */
  ghost predicate Safe(c: Conn, e: Env) {
    if c.open then Opened(c, e) else c.log == [] && c.taken == [] && c.msg == []
  }

  lemma ReplyKeeps(log: seq<seq<byte>>, opcode: byte, msg: seq<byte>, from: nat)
    requires RepliesFrom(log, from)
    ensures RepliesFrom(log + Reply(opcode, msg), from)
  {
    var r := Reply(opcode, msg);
    if r != [] {
      assert IsReply(r[0]);
    }
  }

  lemma StepSafe(c: Conn, e: Env)
    requires Safe(c, e) && Parse(c, e).Go?
    ensures Safe(Parse(c, e).next, e)
  {
    if !c.open {
      AcceptedAlone(c.buf, e.limit);
    } else {
      var d := Decode(c.buf, e.junk);
      ReplyKeeps(c.log, d.opcode, c.msg + d.payload, 1);
    }
  }

  lemma {:induction false} DrainSafe(c: Conn, e: Env)
    requires Safe(c, e)
    ensures Safe(Drain(c, e), e) && (c.open ==> Drain(c, e).open)
    decreases |c.buf|
  {
    var s := Parse(c, e);
    if s.Go? {
      StepSafe(c, e);
      DrainSafe(s.next, e);
    } else {
      assert Drain(c, e).log == c.log && Drain(c, e).taken == c.taken;
    }
  }

  /** Safety holds at every point of every run, and a completed handshake is never undone. */
  lemma {:induction false} HandshakeSafety(c: Conn, chunks: seq<seq<byte>>, e: Env)
    requires Safe(c, e)
    ensures Safe(FeedAll(c, chunks, e), e) && (c.open ==> FeedAll(c, chunks, e).open)
    decreases |chunks|
  {
    if chunks == [] {
    } else {
      var n := |chunks| - 1;
      HandshakeSafety(c, chunks[..n], e);
      var d := FeedAll(c, chunks[..n], e);
      if !d.dead {
        DrainSafe(Plus(d, chunks[n]), e);
      }
    }
  }

  lemma ReplyFirstByte(opcode: byte)
    requires opcode <= 15
    ensures FirstByte(ReplyFrame(opcode, [])) >= 128
  {
  }

  /** No reply is a handshake response, so the response is written exactly once. */
  lemma ReplyNotResponse(entry: seq<byte>, params: Params)
    requires IsReply(entry)
    ensures entry != Response(params)
  {
    var opcode: byte, msg: seq<byte> :| KnownOpcode(opcode) && entry == Pack(ReplyFrame(opcode, msg));
    ReplyFirstByte(opcode);
    assert entry[0] >= 128;
    ResponseFirstByte(params);
  }

  /** The refusing answer, and where it comes from. */
  lemma {:induction false} RefusedIs(c: Conn, e: Env)
    ensures Result(c, e) == Returned(-1) <==> !c.open && Judge(c.buf, e.limit).Refused?
    ensures Result(c, e) == Returned(-1) ==> Drain(c, e) == c
    decreases |c.buf|
  {
    var s := Parse(c, e);
    if !s.Go? {
    } else {
      RefusedIs(s.next, e);
    }
  }

  lemma RefusedAgain(c: Conn, chunk: seq<byte>, e: Env)
    requires !c.dead && Result(c, e) == Returned(-1)
    ensures Result(Plus(c, chunk), e) == Returned(-1) && Feed(c, chunk, e) == Plus(c, chunk)
  {
    RefusedIs(c, e);
    RefusedStable(c.buf, chunk, e.limit);
    RefusedIs(Plus(c, chunk), e);
  }

  /** Once a call has returned -1, every later call returns -1, and none writes anything: the
      bytes only pile up. */
  lemma {:induction false} RefusalFinal(c: Conn, chunks: seq<seq<byte>>, chunk: seq<byte>, e: Env)
    requires !c.dead && Result(c, e) == Returned(-1)
    ensures FeedAll(c, chunks, e) == Plus(c, Flatten(chunks))
    ensures Result(Plus(FeedAll(c, chunks, e), chunk), e) == Returned(-1)
    decreases |chunks|
  {
    if chunks == [] {
      assert Plus(c, []) == c;
      RefusedAgain(c, chunk, e);
    } else {
      var front, last := chunks[..|chunks| - 1], chunks[|chunks| - 1];
      RefusalFinal(c, front, last, e);
      var d := FeedAll(c, front, e);
      RefusedAgain(c, Flatten(front), e);
      RefusedAgain(d, last, e);
      Associates(c.buf, Flatten(front), last);
      RefusedAgain(Plus(d, last), chunk, e);
    }
  }

  // ---------- the value returned ----------

  lemma NothingUnread(c: Conn, e: Env)
    requires c.open && c.buf == []
    ensures Drain(c, e) == c && Result(c, e) == Returned(0)
  {
  }

  /** What a call leaves behind tells what it returns: an exception ended the run, the request was
      refused, everything was taken, and then it is the length of the last packet, or else zero. */
  function Told(c: Conn, d: Conn, e: Env): Answer {
    if d.dead then Threw
    else if !c.open && Judge(c.buf, e.limit).Refused? then Returned(-1)
    else if |d.taken| > |c.taken| && d.buf == [] then Returned(|d.taken[|d.taken| - 1]|)
    else Returned(0)
  }

  lemma {:induction false} ResultIs(c: Conn, e: Env)
    requires !c.dead
    ensures Result(c, e) == Told(c, Drain(c, e), e)
    decreases |c.buf|
  {
    var s := Parse(c, e);
    if s.Go? {
      ResultNext(c, e);
      if s.next.buf == [] {
        NothingUnread(s.next, e);
      } else {
        ResultIs(s.next, e);
        TakenOrStill(s.next, e);
      }
    } else {
      assert Drain(c, e).taken == c.taken;
    }
  }

  lemma ResultNext(c: Conn, e: Env)
    requires Parse(c, e).Go?
    ensures var s := Parse(c, e);
            && Drain(c, e) == Drain(s.next, e) && |s.next.taken| == |c.taken| + 1 && s.next.open
            && (!c.open ==> !Judge(c.buf, e.limit).Refused?)
            && |s.next.taken[|c.taken|]| == s.size
            && Result(c, e) == if s.next.buf == [] then Returned(s.size) else Result(s.next, e)
  {
  }

  /** Without a packet taken the unread bytes stay. */
  lemma TakenOrStill(c: Conn, e: Env)
    ensures |Drain(c, e).taken| >= |c.taken|
    ensures |Drain(c, e).taken| == |c.taken| ==> Drain(c, e).buf == c.buf
  {
    DrainTakes(c, e);
  }
}
